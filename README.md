# Operating-systems labs: a shell, a sorted list, a cipher device

This project models three small C programs and proves properties of the
models in Dafny:

- **lab1/myshell.c** is an interactive shell. A line that starts with
  `exit` ends the loop. Every other line is recorded, newest first, in a
  linked history list, and a counter counts them. A line starting with
  `history` prints the list. Any other line is split into tokens on spaces
  and newlines. The first token is run with the tokens as its argument
  vector. When the last token starts with `&` it runs in the background,
  and that token is meant to be dropped from the vector (see Findings: as
  written, its slot is left unset). Module `MyShell` (`shell.dfy`); class `Shell` holds the
  history and the counter, and `Shell.Step` is one turn of the loop.
- **lab2/concurrent_list.c** is a non-decreasing linked list of `int`s
  under a head record. It supports insert, remove-first-match, print,
  count-matching and delete. Module `SortedList` (`sorted_list.dfy`). The
  class `List` carries a ghost sequence of the chain's nodes and of its
  values (`Contents`). Each method is proved against a function on
  sequences: `InsertSorted`, `RemoveFirst`, `Render` and `CountMatching`.
- **lab3/encdec.c** is a Linux character device with two buffers of
  `memory_size` bytes. Minor 0 encrypts with a Caesar shift modulo 128;
  minor 1 XORs with a one-byte key. Each open file has a key, a read state
  (raw or decrypt) and a position. Module `EncDec` (`encdec.dfy`). The
  module's global state is the class `Device`; each open file is the class
  `OpenFile`.
- Module `CText` (`ctext.dfy`) holds the C text conventions the other
  modules share:
  - the text `printf("%d")` writes, and the proof that it reads back as
    the same number;
  - the tokens that repeated `strtok` calls with the delimiters `" \n"`
    return.

C arithmetic is written out where it matters. `%` truncates toward zero.
Three things C leaves to the implementation are taken as the target's
assumptions: a `char` is signed, storing an out-of-range value into a
`char` keeps its low 8 bits, and `(int)` of an `unsigned long` keeps the
low 32 bits as two's complement.

## Model

| member | source | states |
|---|---|---|
| CText.DigitChar | lab2/concurrent_list.c:25 | a decimal digit is written as the character that reads back as that digit |
| CText.NatToString | lab2/concurrent_list.c:25 | the decimal text of a natural is non-empty, all digits, and has no leading zero |
| CText.IntToString | lab2/concurrent_list.c:25 | `%d` text is non-empty and contains no space or newline, so it is always one token |
| CText.ParseNatToString | lab2/concurrent_list.c:25 | reading back the decimal digits of any natural gives that natural |
| CText.ParseIntToString | lab2/concurrent_list.c:25 | reading back the `%d` text of any int gives that int |
| CText.IntToStringInjective | lab2/concurrent_list.c:285 | two ints print the same `%d` text exactly when they are equal |
| CText.WordLength | lab1/myshell.c:101 | the leading token run is within the string and is non-empty when the string starts with a non-delimiter |
| CText.Tokens | lab1/myshell.c:101-109 | the tokens repeated strtok calls on " \n" return: delimiters are skipped and each token is the maximal run that follows (its properties are the Tokens lemmas below) |
| CText.WordLengthIsRun | lab1/myshell.c:101 | the leading run contains no delimiter and ends at a delimiter or at the end of the string |
| CText.WordLengthAt | lab1/myshell.c:101 | any k with only non-delimiters before it and a delimiter or the end at it is the run length |
| CText.TokensAreWords | lab1/myshell.c:104-109 | every token strtok returns is non-empty and contains no delimiter |
| CText.TokensOfWord | lab1/myshell.c:101 | a single word is its own only token |
| CText.TokensOfDelims | lab1/myshell.c:101 | a line made only of delimiters has no token |
| CText.TokensSplit | lab1/myshell.c:101-108 | a delimiter separates tokens: the tokens of a + d + b are the tokens of a followed by those of b |
| CText.TokensSplitDelim | lab1/myshell.c:101-108 | the step of TokensSplit past a leading delimiter: it carries the split from the rest of a to a |
| CText.TokensSplitWord | lab1/myshell.c:101-108 | the step of TokensSplit past a leading word: the word is not extended across the delimiter, and the split carries over |
| CText.WordLengthBeforeDelim | lab1/myshell.c:101 | a word of a stops at a delimiter that follows a: the leading run of a + d + b is that of a |
| CText.TokensSkipDelim | lab1/myshell.c:108 | skipping a delimiter leaves the remaining tokens unchanged |
| CText.TokensTakeWord | lab1/myshell.c:108 | a maximal run of non-delimiters is the next token |
| CText.TokensWordSpace | lab2/concurrent_list.c:25 | a word followed by a space is exactly one token |
| CText.TokensAfterDelim | lab2/concurrent_list.c:246-253 | text that is empty or ends in a delimiter tokenises independently of what follows it |
| CText.SplitTokens | lab1/myshell.c:100-109 | the strtok loop collects exactly the tokens of the line, in order |
| SortedList.InsertSorted | lab2/concurrent_list.c:114-162 | the values after insert_value: the new value goes before the first value that is >= it, or at the end (see InsertSortedAt, InsertSortedMultiset, InsertPreservesSorted) |
| SortedList.RemoveFirst | lab2/concurrent_list.c:186-229 | the values after remove_value: the first value equal to the argument goes, and nothing changes when there is none (see RemoveFirstAt, RemoveFirstAbsent, RemoveFirstMultiset) |
| SortedList.FirstAtLeast | lab2/concurrent_list.c:129-132 | the index of the first element >= v: everything before it is < v |
| SortedList.InsertSortedAt | lab2/concurrent_list.c:132-162 | insertion puts v at the first index whose element is >= v, and nowhere else |
| SortedList.InsertSortedShape | lab2/concurrent_list.c:132-162 | insertion result is the old list with v placed at a single index |
| SortedList.InsertSortedMultiset | lab2/concurrent_list.c:81-172 | insertion adds exactly one copy of v and loses nothing |
| SortedList.InsertPreservesSorted | lab2/concurrent_list.c:80 | inserting into a non-decreasing list leaves it non-decreasing |
| SortedList.SortedWith | lab2/concurrent_list.c:132-162 | placing v after the elements below it and before the rest keeps a sorted list sorted |
| SortedList.RemoveFirstAt | lab2/concurrent_list.c:197-219 | removal deletes the element at the first index holding v |
| SortedList.RemoveFirstAbsent | lab2/concurrent_list.c:229 | removing a value that is not present changes nothing |
| SortedList.RemoveFirstMultiset | lab2/concurrent_list.c:175-231 | removal takes away at most one copy of v and nothing else |
| SortedList.RemovePreservesSorted | lab2/concurrent_list.c:175-231 | removal keeps a non-decreasing list non-decreasing |
| SortedList.SortedWithout | lab2/concurrent_list.c:211-213 | leaving out any one element keeps a sorted list sorted |
| SortedList.FirstIndexExists | lab2/concurrent_list.c:194-197 | a present value has a first occurrence for the traversal to stop at |
| SortedList.FirstIndexBelow | lab2/concurrent_list.c:194-197 | at or below any occurrence of v there is a first occurrence, with no v before it |
| SortedList.InsertThenRemove | lab2/concurrent_list.c:81-231 | removing a value just inserted gives back the original list |
| SortedList.CountMatching | lab2/concurrent_list.c:274-284 | the count never exceeds the length of the list |
| SortedList.CountMatchingAll | lab2/concurrent_list.c:277-280 | when every value satisfies the predicate, the count is the length of the list |
| SortedList.Render | lab2/concurrent_list.c:246-253 | a non-empty list prints text ending in a space |
| SortedList.Formatted | lab2/concurrent_list.c:25 | there is one formatted value per element |
| SortedList.FormattedAt | lab2/concurrent_list.c:25 | the i-th formatted value is the `%d` text of the i-th element |
| SortedList.RenderTokens | lab2/concurrent_list.c:246-255 | the tokens of the printed list are the `%d` texts of its values, in order |
| SortedList.RenderPrefix | lab2/concurrent_list.c:246-253 | printing one more value appends its `%d` text and a space to what was printed before |
| SortedList.PrintedValues | lab2/concurrent_list.c:235-256 | the printed line has one token per value, and each reads back as that value |
| SortedList.Node.constructor | lab2/concurrent_list.c:89-93 | a new node holds the value and has no successor |
| SortedList.List.constructor | lab2/concurrent_list.c:30-49 | create_list gives a valid, empty list |
| SortedList.ChainDistinct | lab2/concurrent_list.c:129-170 | a chain of next pointers that ends in NULL visits no node twice |
| SortedList.ChainNoRepeat | lab2/concurrent_list.c:129-170 | two positions of such a chain hold different nodes |
| SortedList.PrintNode | lab2/concurrent_list.c:20-27 | print_node writes nothing exactly for NULL, and otherwise text ending in a space |
| SortedList.PrintNodeReadsBack | lab2/concurrent_list.c:20-27 | what print_node writes for a node is one token, which reads back as the node's value |
| SortedList.InsertValue | lab2/concurrent_list.c:81-172 | the list stays a valid chain, and its values become the old ones with `value` placed before the first one that is >= it |
| SortedList.FindInsertPoint | lab2/concurrent_list.c:126-168 | the traversal stops at the first node whose value is >= value, or at the last node; every value before it is smaller, and prev is the node before it (the head when it is the head) |
| SortedList.LinkAtHead | lab2/concurrent_list.c:134-142 | the new node becomes the head, and the values become InsertSorted of the old ones |
| SortedList.LinkBetween | lab2/concurrent_list.c:143-151 | the new node goes between prev and curr, and the values become InsertSorted of the old ones |
| SortedList.LinkAfter | lab2/concurrent_list.c:156-162 | the new node goes after the last node, and the values become InsertSorted of the old ones |
| SortedList.Relinked | lab2/concurrent_list.c:134-159 | after the pointer writes at the head, in between or at the tail, the chain is the old one with the new node spliced in at index i |
| SortedList.Spliced | lab2/concurrent_list.c:146-147 | the relinked nodes form one chain ending in NULL |
| SortedList.RemoveValue | lab2/concurrent_list.c:175-231 | the list stays a valid chain; its values lose only the first copy of `value`, and are unchanged when `value` is absent; the node that held `value` leaves the chain and is returned as reclaimed, and none is when `value` is absent |
| SortedList.Unlinked | lab2/concurrent_list.c:199-213 | after bypassing node i, the chain is the old one without that node |
| SortedList.Bypassed | lab2/concurrent_list.c:211-213 | the bypassed nodes still form one chain ending in NULL |
| SortedList.PrintList | lab2/concurrent_list.c:235-256 | print_list writes each value's `%d` text and a space, in list order, then a newline; it writes nothing for a NULL list |
| SortedList.CountList | lab2/concurrent_list.c:259-286 | count_list counts exactly the values satisfying the predicate (0 for a NULL list) and prints "N items were counted" |
| SortedList.DeleteList | lab2/concurrent_list.c:52-78 | delete_list empties the head and reclaims every node of the chain exactly once, in order |
| EncDec.Signed | lab3/encdec.c:204 | a char holds -128..127; bytes below 128 keep their value and the others stand for their value minus 256 (signed char assumed) |
| EncDec.ToChar | lab3/encdec.c:204 | storing an int into a char keeps its low 8 bits: the stored byte is congruent to the int modulo 256 |
| EncDec.CRem | lab3/encdec.c:227 | C's `%` equals the mathematical remainder for non-negative operands and takes the dividend's sign otherwise |
| EncDec.ToInt32 | lab3/encdec.c:161 | `(int)arg` is within the 32-bit range, congruent to arg modulo 2^32, and equal to arg when arg fits |
| EncDec.CaesarEncrypt | lab3/encdec.c:227 | on 7-bit bytes the write transform is (b + key) mod 128 |
| EncDec.CaesarDecrypt | lab3/encdec.c:204 | on 7-bit bytes with a key below 128 the read transform is (b - key) mod 128 |
| EncDec.CaesarRoundTrip | lab3/encdec.c:204-227 | on 7-bit text with a key below 128, decrypting what was encrypted gives the original byte |
| EncDec.CaesarRoundTripFailsForLargeKey | lab3/encdec.c:204-227 | with key 200, byte 127 reads back as 255, so the round trip needs keys below 128 |
| EncDec.XorByte | lab3/encdec.c:251 | `b ^ key` stored into a char, as the XOR read (line 251) and write (line 274) transforms compute it; undone by itself (XorRoundTrip) |
| EncDec.XorBitsBound | lab3/encdec.c:251 | the XOR of the low n bits fits in n bits, so the XOR of two chars is a char |
| EncDec.XorBitsTwice | lab3/encdec.c:251-274 | XOR with the same value twice restores the low n bits |
| EncDec.XorRoundTrip | lab3/encdec.c:251-274 | for every byte and every key, XOR decryption undoes XOR encryption |
| EncDec.Device.constructor | lab3/encdec.c:81-82 | init_module allocates two distinct buffers of memory_size bytes |
| EncDec.OpenFile.constructor | lab3/encdec.c:123-129 | a new file has key 0, the decrypt read state and position 0 |
| EncDec.Open | lab3/encdec.c:107-134 | minor 0 opens the Caesar device and minor 1 the XOR device, each with key 0 in the decrypt state; any other minor gives -EINVAL |
| EncDec.Ioctl | lab3/encdec.c:148-177 | CHANGE_KEY sets the key to arg's low byte, SET_READ_STATE stores (int)arg, and ZERO clears exactly the file's own buffer; other commands give -ENOTTY and change nothing |
| EncDec.TransformRange | lab3/encdec.c:202-205 | each byte in the range is replaced by the transform of its old value under the key, and no other byte changes |
| EncDec.ReadCaesar | lab3/encdec.c:187-210 | past the buffer: -EINVAL and nothing changes; else count bytes are read from the position, decrypted in the decrypt state, and the position advances by count |
| EncDec.WriteCaesar | lab3/encdec.c:212-232 | past the buffer: -ENOSPC and nothing changes; else count bytes are stored encrypted at the position, no other byte changes, and the position advances by count |
| EncDec.ReadXor | lab3/encdec.c:234-257 | as ReadCaesar, on the XOR buffer with the XOR transform |
| EncDec.WriteXor | lab3/encdec.c:259-278 | as WriteCaesar, on the XOR buffer with the XOR transform |
| EncDec.XorEcho | lab3/encdec.c:251-274 | bytes written through one open XOR file read back unchanged through a fresh one with the same key |
| EncDec.CaesarEcho | lab3/encdec.c:204-227 | the same for the Caesar device, on 7-bit text with a key below 128 |
| MyShell.IsExit | lab1/myshell.c:79 | the exit test: the line starts with `exit` |
| MyShell.IsHistory | lab1/myshell.c:93 | the history test: the line starts with `history` |
| MyShell.IsBackground | lab1/myshell.c:118 | the background test: the last token starts with `&` |
| MyShell.Truncate | lab1/myshell.c:25 | strncpy keeps a prefix of the command: all of it when it is at most BUFFER_SIZE characters, exactly BUFFER_SIZE characters otherwise |
| MyShell.Line | lab1/myshell.c:49 | one printList line: the number's `%d` text, a space, then the command |
| MyShell.Listing | lab1/myshell.c:45-52 | the history listing has one line per entry |
| MyShell.ListingAt | lab1/myshell.c:45-52 | the j-th listed line carries the number `size - j` and the j-th command |
| MyShell.ListingLines | lab1/myshell.c:45-52 | every listed line carries its number and its command |
| MyShell.ListingStep | lab1/myshell.c:45-52 | the listing from entry i is entry i's line followed by the listing of the rest, numbered one lower |
| MyShell.HistNode.constructor | lab1/myshell.c:18-28 | createNode copies the command, truncated to BUFFER_SIZE, and sets no successor |
| MyShell.ChainDistinct | lab1/myshell.c:31-52 | a history chain that ends in NULL visits no node twice |
| MyShell.ChainNoRepeat | lab1/myshell.c:31-52 | two positions of such a chain hold different nodes |
| MyShell.Shell.constructor | lab1/myshell.c:60-63 | the loop starts with an empty history and the counter at 0 |
| MyShell.Shell.PrintList | lab1/myshell.c:45-52 | printList prints every entry, newest first, numbered from `size` downward |
| MyShell.Shell.DeleteList | lab1/myshell.c:31-42 | deleteList reclaims every history node exactly once, in order |
| MyShell.Shell.Record | lab1/myshell.c:85-90 | the line becomes the new first history entry, and the counter goes up by one |
| MyShell.Shell.Step | lab1/myshell.c:71-149 | `exit` leaves history and counter alone; any other line is recorded; `history` lists the entries numbered counter down to 1; a line with no token runs nothing; else the first token runs with the token list, minus a trailing `&` token in the background (corrected argument vector; see Findings) |
| MyShell.Shell.Dispatch | lab1/myshell.c:92-149 | after recording: `history` lists the entries numbered counter down to 1, a line with no token runs nothing, and any other line is launched with its tokens, minus a trailing `&` token in the background (corrected argument vector; see Findings) |
| MyShell.Launched | lab1/myshell.c:117-144 | a last token starting with `&` means background, and execvp gets the first token and the argument list the child builds |
| MyShell.ArgvAsWritten | lab1/myshell.c:135-142 | the child's argument vector keeps its length |
| MyShell.FillArgvAsWritten | lab1/myshell.c:135-142 | the child's loop as written: NULL at index n, tokens below k, and every other slot untouched |
| MyShell.ArgvAsWrittenForeground | lab1/myshell.c:135-144 | in the foreground, execvp receives exactly the token list |
| MyShell.ArgvAsWrittenBackgroundUndefined | lab1/myshell.c:135-144 | in the background, slot n-1 is never written, so execvp meets an undefined slot before any NULL |
| MyShell.ArgvIntended | lab1/myshell.c:135-142 | the corrected vector keeps its length |
| MyShell.FillArgv | lab1/myshell.c:135-142 | the corrected loop: the same vector, with a NULL also at index n-1 in the background |
| MyShell.ArgvIntendedArgs | lab1/myshell.c:135-144 | execvp receives the token list, without the trailing `&` token in the background |
| MyShell.ExecArgs | lab1/myshell.c:144 | the argument list execvp reads from `arg_ptrs`: the slots up to the first NULL, or none when an unwritten slot comes first |
| MyShell.ExecArgsFrom | lab1/myshell.c:144 | the same reading, from slot i on |
| MyShell.ExecArgsRun | lab1/myshell.c:144 | argument slots ending in a NULL read as exactly those arguments |
| MyShell.ExecArgsUnset | lab1/myshell.c:144 | argument slots that reach an unwritten slot before any NULL do not form an argument list |
| MyShell.Prepended | lab1/myshell.c:88-90 | putting a fresh node in front of the history keeps it one chain ending in NULL |
| MyShell.PrependedCommands | lab1/myshell.c:85-90 | after prepending, the i-th node still holds the i-th recorded command |

## Left out

- The mutexes of concurrent_list.c are not modelled. Each list operation is one atomic step, so interleavings of concurrent callers are out of scope.
- malloc, kmalloc and pthread_mutex_init failures are not modelled, and neither is the shell's exit on a failed allocation. The model always allocates successfully.
- Output to stdout is returned as a string or a list of lines, not written. This covers `print_list`, `count_list`, `printList` and the shell prompt; the prompt itself is not modelled.
- SortedList.RemoveValue, SortedList.DeleteList, MyShell.Shell.DeleteList: freeing a node is modelled by returning the node (ghost), and for the DeleteList methods a count. The freed node stays in the list's `Repr` footprint, and its destroyed mutex is not modelled. The freed `list` record is not modelled: its handle stays usable in the model.
- The shell's `head = NULL` inside deleteList only changes a local copy, so it has no effect and is not modelled.
- fork, wait, execvp, fgets, close(2) and dup(1) are process and terminal I/O. Step returns what would be launched or printed instead. A failed fork (perror) and the parent's wait are left out.
- MyShell.Shell.Step, MyShell.Shell.Dispatch, MyShell.Shell.Record: a line is a C string (`IsCString`): each character stands for one byte, and none is a NUL, because strncpy, strtok and printf would stop at the first NUL and the rest of the buffer is never seen. Bytes after an embedded NUL that fgets read are not modelled. A line is shorter than BUFFER_SIZE bytes, which is what fgets guarantees. A line that is neither `exit` nor `history` has fewer than SUB_COMMAND_SIZE tokens: with SUB_COMMAND_SIZE tokens the child's `arg_ptrs[i] = NULL` writes one past the end of `arg_ptrs`, and with more the tokenising loop also writes past the end of `arguments`. Those overflows are not modelled. `exit` and `history` lines are handled before any tokenising and carry no such bound. The terminating NUL itself is not part of a line, and end of input (where fgets leaves an empty line and the loop repeats) is not modelled.
- MyShell.Launched, MyShell.Shell.Step, MyShell.Shell.Dispatch: the child's `arg_ptrs` is built by the corrected loop (see Findings). The undefined slot of the as-written loop is modelled separately.
- encdec.c's kernel plumbing is not modelled. This covers module registration, init_module's and cleanup_module's failure paths, encdec_release (which only frees the private data), MODULE_PARM and `f_op` tables beyond the choice of cipher.
- EncDec.ReadCaesar, EncDec.WriteCaesar, EncDec.ReadXor, EncDec.WriteXor: copy_to_user and copy_from_user are taken to copy all `count` bytes (`res == 0`). A partial copy is not modelled.
- EncDec.ReadCaesar, EncDec.WriteCaesar, EncDec.ReadXor, EncDec.WriteXor require `pos + count <= memory_size` when `pos < memory_size`. The driver does not check this: a longer request overruns the device buffer, which the model excludes rather than models.
- EncDec.CaesarRoundTrip holds only for bytes and keys below 128. The driver accepts any key byte, and `CaesarRoundTripFailsForLargeKey` shows a key where decryption does not undo encryption.
- encdec.h is not part of this model. The read-state value DECRYPT = 1 is assumed (any other value reads raw), and the ioctl command numbers are a datatype (`Command`), with `Other` for any unknown number.
- EncDec.Ioctl requires `arg` to fit an unsigned long, taken to be 64 bits. On a 32-bit target the bound is 2^32, and `(int)arg` is then only a reinterpretation of the same 32 bits.
- The list's `value` and the shell's counter are unbounded integers. A 32-bit overflow of the counter after 2^31 commands is not modelled.

## Findings

| source | as written | input that shows it | evidently intended | confidence | as-written member | corrected member |
|---|---|---|---|---|---|---|
| lab1/myshell.c:135-142 | In background mode, the child writes NULL at `arg_ptrs[n]` and copies only tokens 0..n-2, so `arg_ptrs[n-1]` is never written. `arg_ptrs` is an uninitialised local of main that the parent never writes, so execvp reads an undefined pointer there. | the line `sleep 5 &` (tokens `sleep`, `5`, `&`) | NULL at index n-1, so that execvp gets the tokens without the trailing `&` | not executed | MyShell.FillArgvAsWritten, MyShell.ArgvAsWrittenBackgroundUndefined | MyShell.FillArgv, MyShell.ArgvIntendedArgs |
