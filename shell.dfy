/**
 * The command loop of lab1's shell: each input line is either `exit`, which
 * ends the loop, or is recorded in a newest-first history list; a line
 * starting with `history` prints that list, any other line is split into
 * tokens and handed to a child process, in the background when its last
 * token starts with `&`.
 *
 * A line is the C string fgets produced, without its terminating NUL.
 * Process creation, waiting and the terminal are not part of this model:
 * one step of the loop returns what it would print or launch.
 */
module MyShell {
  import opened CText

  const BUFFER_SIZE: nat := 100
  const SUB_COMMAND_SIZE: nat := 30

  // ---------------------------------------------------------------------
  // Line classification
  // ---------------------------------------------------------------------

  /** strncmp(line, "exit", 4) == 0 */
  predicate IsExit(line: string) {
    |line| >= 4 && line[..4] == "exit"
  }

  /** strncmp(line, "history", 7) == 0 */
  predicate IsHistory(line: string) {
    |line| >= 7 && line[..7] == "history"
  }

  /** strncmp("&", last, 1) == 0: the last token starts with '&'. */
  predicate IsBackground(tokens: seq<string>) {
    |tokens| > 0 && |tokens[|tokens| - 1]| > 0 && tokens[|tokens| - 1][0] == '&'
  }

  /** What strncpy(dst, s, BUFFER_SIZE) keeps of s. */
  function Truncate(s: string): (r: string)
    ensures |r| <= BUFFER_SIZE && |r| <= |s| && r == s[..|r|]
    ensures |s| <= BUFFER_SIZE ==> r == s
    ensures |s| > BUFFER_SIZE ==> |r| == BUFFER_SIZE
  {
    if |s| <= BUFFER_SIZE then s else s[..BUFFER_SIZE]
  }

  /** One line of printList: fprintf's "%d %s" of a number and a command. */
  function Line(number: int, command: string): string {
    IntToString(number) + " " + command
  }

  /** The lines printList prints for the commands cs, newest first, numbered from `number` down. */
  function Listing(cs: seq<string>, number: int): (lines: seq<string>)
    ensures |lines| == |cs|
    decreases |cs|
  {
    if cs == [] then [] else [Line(number, cs[0])] + Listing(cs[1..], number - 1)
  }

  /** The j-th listed line carries number - j and the j-th command. */
  lemma {:induction false} ListingAt(cs: seq<string>, number: int, j: nat)
    requires j < |cs|
    ensures Listing(cs, number)[j] == Line(number - j, cs[j])
    decreases j
  {
    if j > 0 {
      ListingAt(cs[1..], number - 1, j - 1);
    }
  }

  /** Every listed line: the j-th carries number - j and the j-th command. */
  lemma ListingLines(cs: seq<string>, number: int)
    ensures forall j :: 0 <= j < |cs| ==> Listing(cs, number)[j] == Line(number - j, cs[j])
  {
    forall j | 0 <= j < |cs| ensures Listing(cs, number)[j] == Line(number - j, cs[j]) {
      ListingAt(cs, number, j);
    }
  }

  /** The listing of cs[i..] is its first line followed by the listing of the rest. */
  lemma ListingStep(cs: seq<string>, i: nat, number: int)
    requires i < |cs|
    ensures Listing(cs[i..], number) == [Line(number, cs[i])] + Listing(cs[i + 1..], number - 1)
  {
    assert cs[i..][1..] == cs[i + 1..];
  }

  // ---------------------------------------------------------------------
  // The argument vector handed to execvp
  // ---------------------------------------------------------------------

  /**
   * A slot of arg_ptrs: never written (whatever the uninitialised array
   * held), NULL, or a pointer to an argument string.
   */
  datatype Slot = Unset | Null | Arg(arg: string)

  /** The argument list execvp reads from slots: up to the first NULL; None if it meets an unwritten slot first. */
  function ExecArgs(slots: seq<Slot>): Option<seq<string>> {
    ExecArgsFrom(slots, 0)
  }

  function ExecArgsFrom(slots: seq<Slot>, i: nat): Option<seq<string>>
    decreases |slots| - i
  {
    if i >= |slots| then None
    else match slots[i]
      case Null => Some([])
      case Unset => None
      case Arg(a) =>
        match ExecArgsFrom(slots, i + 1)
        case Some(rest) => Some([a] + rest)
        case None => None
  }

  datatype Option<T> = None | Some(value: T)

  /**
   * arg_ptrs after main's child branch as written: NULL at index n, and
   * tokens 0..k-1 copied below it, where k is n, or n - 1 in background
   * mode; every other slot keeps what it held.
   */
  function ArgvAsWritten(slots: seq<Slot>, args: seq<string>, background: bool): (r: seq<Slot>)
    requires |args| < |slots|
    ensures |r| == |slots|
  {
    var n := |args|;
    var k := if background && n > 0 then n - 1 else n;
    seq(|slots|, j requires 0 <= j < |slots| => if j == n then Null else if j < k then Arg(args[j]) else slots[j])
  }

  /**
   * arg_ptrs as evidently intended: in background mode the `&` token is
   * dropped by putting the NULL at index n - 1 instead.
   */
  function ArgvIntended(slots: seq<Slot>, args: seq<string>, background: bool): (r: seq<Slot>)
    requires |args| < |slots|
    ensures |r| == |slots|
  {
    var n := |args|;
    var k := if background && n > 0 then n - 1 else n;
    seq(|slots|, j requires 0 <= j < |slots| => if j == n || j == k then Null else if j < k then Arg(args[j]) else slots[j])
  }

  /** Slots holding Arg(args[j]) from i up to k and Null at k read as args[i..k]. */
  lemma {:induction false} ExecArgsRun(slots: seq<Slot>, args: seq<string>, i: nat, k: nat)
    requires i <= k < |slots| && k <= |args|
    requires forall j :: i <= j < k ==> slots[j] == Arg(args[j])
    requires slots[k] == Null
    ensures ExecArgsFrom(slots, i) == Some(args[i..k])
    decreases k - i
  {
    if i < k {
      ExecArgsRun(slots, args, i + 1, k);
      assert ExecArgsFrom(slots, i) == Some([args[i]] + args[i + 1..k]);
      assert args[i..k] == [args[i]] + args[i + 1..k];
    }
  }

  /** Slots holding Arg values from i up to an Unset slot u read as no argument list at all. */
  lemma {:induction false} ExecArgsUnset(slots: seq<Slot>, i: nat, u: nat)
    requires i <= u < |slots| && slots[u] == Unset
    requires forall j :: i <= j < u ==> slots[j].Arg?
    ensures ExecArgsFrom(slots, i) == None
    decreases u - i
  {
    if i < u {
      ExecArgsUnset(slots, i + 1, u);
    }
  }

  /** In the foreground, the vector as written is the token list. */
  lemma ArgvAsWrittenForeground(slots: seq<Slot>, args: seq<string>)
    requires |args| < |slots|
    ensures ExecArgs(ArgvAsWritten(slots, args, false)) == Some(args)
  {
    var r := ArgvAsWritten(slots, args, false);
    ExecArgsRun(r, args, 0, |args|);
    assert args[0..|args|] == args;
  }

  /**
   * In background mode, slot n - 1 is never written: in the child it is
   * whatever the uninitialised array held, so execvp reads an undefined
   * pointer instead of a NULL-terminated list.
   */
  lemma ArgvAsWrittenBackgroundUndefined(slots: seq<Slot>, args: seq<string>)
    requires 1 <= |args| < |slots|
    requires forall j :: 0 <= j < |slots| ==> slots[j] == Unset
    ensures ExecArgs(ArgvAsWritten(slots, args, true)) == None
  {
    var r := ArgvAsWritten(slots, args, true);
    ExecArgsUnset(r, 0, |args| - 1);
  }

  /** The intended vector is the tokens, without the trailing `&` one in background mode. */
  lemma ArgvIntendedArgs(slots: seq<Slot>, args: seq<string>, background: bool)
    requires 1 <= |args| < |slots|
    ensures ExecArgs(ArgvIntended(slots, args, background))
            == Some(if background then args[..|args| - 1] else args)
  {
    var r := ArgvIntended(slots, args, background);
    var k := if background then |args| - 1 else |args|;
    ExecArgsRun(r, args, 0, k);
    assert args[0..k] == (if background then args[..|args| - 1] else args);
  }

  /** main's child branch, as written: arg_ptrs[n] = NULL, then copy downward from k - 1. */
  method FillArgvAsWritten(argv: array<Slot>, args: seq<string>, background: bool)
    requires 1 <= |args| < argv.Length
    modifies argv
    ensures argv[..] == ArgvAsWritten(old(argv[..]), args, background)
  {
    var i := |args|;
    argv[i] := Null;
    if background {
      i := i - 1;
    }
    var k := i;
    i := i - 1;
    while i >= 0
      invariant -1 <= i < k
      invariant forall j :: i < j < k ==> argv[j] == Arg(args[j])
      invariant forall j :: 0 <= j < argv.Length && !(i < j < k) && j != |args| ==> argv[j] == old(argv[j])
      invariant argv[|args|] == Null
    {
      argv[i] := Arg(args[i]);
      i := i - 1;
    }
  }

  /** main's child branch as evidently intended: the NULL also goes to index k in background mode. */
  method FillArgv(argv: array<Slot>, args: seq<string>, background: bool)
    requires 1 <= |args| < argv.Length
    modifies argv
    ensures argv[..] == ArgvIntended(old(argv[..]), args, background)
  {
    var i := |args|;
    argv[i] := Null;
    if background {
      i := i - 1;
      argv[i] := Null;
    }
    var k := i;
    i := i - 1;
    while i >= 0
      invariant -1 <= i < k
      invariant forall j :: i < j < k ==> argv[j] == Arg(args[j])
      invariant forall j :: 0 <= j < argv.Length && !(i < j <= k) && j != |args| ==> argv[j] == old(argv[j])
      invariant argv[|args|] == Null && argv[k] == Null
    {
      argv[i] := Arg(args[i]);
      i := i - 1;
    }
  }

  // ---------------------------------------------------------------------
  // The history list
  // ---------------------------------------------------------------------

  /** `Node`: one history entry. The constructor is createNode. */
  class HistNode {
    const command: string
    var next: HistNode?

    /** createNode: the command, copied up to BUFFER_SIZE characters, with no successor. */
    constructor (command: string)
      ensures this.command == Truncate(command) && next == null
    {
      this.command := Truncate(command);
      next := null;
    }
  }

  function NextOf(ns: seq<HistNode>, i: nat): HistNode?
    requires i < |ns|
  {
    if i + 1 < |ns| then ns[i + 1] else null
  }

  /** Each node of ns points to the next one, and the last one to null. */
  ghost predicate Chained(ns: seq<HistNode>)
    reads ns
  {
    forall i :: 0 <= i < |ns| ==> ns[i].next == NextOf(ns, i)
  }

  ghost predicate Distinct(ns: seq<HistNode>) {
    forall i, j :: 0 <= i < j < |ns| ==> ns[i] != ns[j]
  }

  /** A chain that ends in null cannot visit a node twice. */
  lemma ChainDistinct(ns: seq<HistNode>)
    requires Chained(ns)
    ensures Distinct(ns)
  {
    forall i, j | 0 <= i < j < |ns| ensures ns[i] != ns[j] {
      ChainNoRepeat(ns, i, j);
    }
  }

  /** Two positions of a chain hold different nodes: their successors differ, down to the final null. */
  lemma {:induction false} ChainNoRepeat(ns: seq<HistNode>, i: nat, j: nat)
    requires Chained(ns) && i < j < |ns|
    ensures ns[i] != ns[j]
    decreases |ns| - j
  {
    if j + 1 < |ns| {
      ChainNoRepeat(ns, i + 1, j + 1);
    }
    assert ns[i].next != ns[j].next;
  }

  /** The state main keeps across iterations: the history list and the counter. */
  class Shell {
    var history: HistNode?
    var counter: int
    ghost var nodes: seq<HistNode>   // the history chain, newest first
    ghost var Commands: seq<string>  // the recorded commands, newest first
    ghost var Repr: set<object>

    ghost predicate Valid()
      reads this, Repr
    {
      && this in Repr
      && (forall i :: 0 <= i < |nodes| ==> nodes[i] in Repr)
      && |Commands| == |nodes| && counter == |nodes|
      && history == (if nodes == [] then null else nodes[0])
      && (forall i :: 0 <= i < |nodes| ==> nodes[i].command == Commands[i])
      && Chained(nodes)
    }

    /** The node at index i of the chain, or null past its end. */
    ghost function NodeAt(i: nat): HistNode?
      reads this
    {
      if i < |nodes| then nodes[i] else null
    }

    /** The loop's starting state: empty history, counter 0. */
    constructor ()
      ensures Valid() && fresh(Repr)
      ensures Commands == [] && counter == 0
    {
      history := null;
      counter := 0;
      nodes, Commands := [], [];
      Repr := {this};
    }

    /** printList(history, size): each entry as "size command", size counting down. */
    method PrintList(size: int) returns (lines: seq<string>)
      requires Valid()
      ensures lines == Listing(Commands, size)
      ensures |lines| == |Commands|
      ensures forall j :: 0 <= j < |lines| ==> lines[j] == Line(size - j, Commands[j])
    {
      lines := [];
      var current := history;
      var n := size;
      ghost var i := 0;
      while current != null
        invariant 0 <= i <= |nodes| && current == NodeAt(i) && n == size - i
        invariant lines + Listing(Commands[i..], n) == Listing(Commands, size)
        decreases |nodes| - i
      {
        assert current.command == Commands[i] && current.next == NodeAt(i + 1);
        ListingStep(Commands, i, n);
        lines := lines + [Line(n, current.command)];
        n := n - 1;
        current := current.next;
        i := i + 1;
      }
      assert Commands[i..] == [];
      ListingLines(Commands, size);
    }

    /**
     * deleteList(history): walk the chain to its end, reclaiming every node
     * once. Returns how many were reclaimed, and (as ghost) which, in order.
     */
    method DeleteList() returns (freed: nat, ghost reclaimed: seq<HistNode>)
      requires Valid()
      ensures freed == |Commands| && reclaimed == nodes && Distinct(reclaimed)
    {
      ChainDistinct(nodes);
      var current := history;
      freed, reclaimed := 0, [];
      while current != null
        invariant 0 <= freed <= |nodes| && current == (if freed < |nodes| then nodes[freed] else null)
        invariant reclaimed == nodes[..freed]
        decreases |nodes| - freed
      {
        var next := current.next;
        reclaimed := reclaimed + [current];
        freed := freed + 1;
        current := next;
      }
      assert nodes[..freed] == nodes;
    }

    /**
     * One iteration of main's loop on the line fgets read. `exit` ends the
     * loop and leaves history and counter alone; every other line is
     * recorded first (newest first, counter + 1). A `history` line then
     * lists the history numbered counter down to 1; an empty line does
     * nothing more; any other line launches its first token with the
     * argument vector from its tokens.
     */
    method Step(line: string) returns (outcome: Outcome)
      requires Valid()
      requires IsCString(line) && |line| < BUFFER_SIZE   // fgets stores at most BUFFER_SIZE - 1 bytes before the NUL
      // arguments and arg_ptrs have room for the tokens and the NULL; exit and history lines are never tokenised
      requires !IsExit(line) && !IsHistory(line) ==> |Tokens(line)| < SUB_COMMAND_SIZE
      modifies Repr
      ensures Valid() && fresh(Repr - old(Repr))
      ensures IsExit(line) ==> outcome == Exit && Commands == old(Commands) && counter == old(counter)
      ensures !IsExit(line) ==> Commands == [line] + old(Commands) && counter == old(counter) + 1
      ensures !IsExit(line) && IsHistory(line) ==> outcome == History(Listing(Commands, counter))
      ensures !IsExit(line) && !IsHistory(line) && Tokens(line) == [] ==> outcome == Skip
      ensures !IsExit(line) && !IsHistory(line) && Tokens(line) != [] ==>
                var tokens := Tokens(line);
                outcome == Launch(tokens[0],
                                  if IsBackground(tokens) then tokens[..|tokens| - 1] else tokens,
                                  IsBackground(tokens))
    {
      if IsExit(line) {
        var _, _ := DeleteList();
        return Exit;
      }
      Record(line);
      outcome := Dispatch(line);
    }

    /**
     * The rest of the step once the line is recorded: `history` lists the
     * entries numbered counter down to 1, a line without tokens does
     * nothing, and any other line is launched.
     */
    method Dispatch(line: string) returns (outcome: Outcome)
      requires Valid() && IsCString(line)
      requires !IsHistory(line) ==> |Tokens(line)| < SUB_COMMAND_SIZE
      ensures IsHistory(line) ==> outcome == History(Listing(Commands, counter))
      ensures !IsHistory(line) && Tokens(line) == [] ==> outcome == Skip
      ensures !IsHistory(line) && Tokens(line) != [] ==>
                var tokens := Tokens(line);
                outcome == Launch(tokens[0],
                                  if IsBackground(tokens) then tokens[..|tokens| - 1] else tokens,
                                  IsBackground(tokens))
    {
      if IsHistory(line) {
        var lines := PrintList(counter);
        return History(lines);
      }
      var tokens := SplitTokens(line);
      if |tokens| == 0 {
        return Skip;
      }
      TokensAreWords(line);
      outcome := Launched(tokens);
    }

    /** Add the line to the history: a new node in front, counter + 1. */
    method Record(line: string)
      requires Valid() && IsCString(line) && |line| < BUFFER_SIZE
      modifies Repr
      ensures Valid() && fresh(Repr - old(Repr))
      ensures Commands == [line] + old(Commands) && counter == old(counter) + 1
    {
      var node := new HistNode(line);
      if history != null {
        node.next := history;
      }
      Prepended(nodes, node);
      PrependedCommands(nodes, Commands, Repr, node);
      counter, history := counter + 1, node;
      nodes, Commands, Repr := [node] + nodes, [line] + Commands, Repr + {node};
    }
  }

  /**
   * The fork-and-exec part of main's loop for a non-empty token list: the
   * background flag from the last token, and the argument vector the child
   * builds in a fresh arg_ptrs and hands to execvp with the first token.
   */
  method Launched(tokens: seq<string>) returns (outcome: Outcome)
    requires 1 <= |tokens| < SUB_COMMAND_SIZE
    requires forall i :: 0 <= i < |tokens| ==> IsWord(tokens[i])
    ensures outcome == Launch(tokens[0],
                              if IsBackground(tokens) then tokens[..|tokens| - 1] else tokens,
                              IsBackground(tokens))
  {
    var background := tokens[|tokens| - 1][0] == '&';
    var argv := new Slot[SUB_COMMAND_SIZE](_ => Unset);
    ghost var before := argv[..];
    FillArgv(argv, tokens, background);
    ArgvIntendedArgs(before, tokens, background);
    outcome := Launch(tokens[0], ExecArgs(argv[..]).value, background);
  }

  /** What one step of the loop does besides updating the history. */
  datatype Outcome =
    | Exit                                                   // leave the loop
    | History(lines: seq<string>)                            // print the history
    | Skip                                                   // no token: nothing to run
    | Launch(file: string, argv: seq<string>, background: bool)  // fork and execvp(file, argv)

  /** Prepending a node keeps nodes and commands aligned, and every node in the footprint. */
  lemma PrependedCommands(ns: seq<HistNode>, cs: seq<string>, repr: set<object>, p: HistNode)
    requires |ns| == |cs|
    requires forall i :: 0 <= i < |ns| ==> ns[i] in repr && ns[i].command == cs[i]
    ensures forall i :: 0 <= i < |ns| + 1 ==>
              ([p] + ns)[i] in repr + {p} && ([p] + ns)[i].command == ([p.command] + cs)[i]
  {
  }

  /** Prepending a fresh node to the chain keeps it a chain without repeated nodes. */
  lemma Prepended(ns: seq<HistNode>, p: HistNode)
    requires Chained(ns) && p !in ns
    requires p.next == if ns == [] then null else ns[0]
    ensures Chained([p] + ns)
  {
    var ns' := [p] + ns;
    forall j | 0 <= j < |ns'| ensures ns'[j].next == NextOf(ns', j) {
      if j > 0 {
        assert ns'[j] == ns[j - 1];
      }
    }
  }
}
