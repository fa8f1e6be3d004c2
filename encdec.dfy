/**
 * The encdec character device of lab3: two device buffers of memory_size
 * bytes, one behind minor 0 (Caesar cipher) and one behind minor 1 (XOR
 * cipher), and per-open-file state holding a key byte and a read state.
 * Writes encrypt the caller's bytes into the buffer at the file position;
 * reads copy them out and, in the decrypt read state, decrypt them.
 *
 * A C `char` is modelled by its bit pattern, a `byte` 0..255. The driver's
 * arithmetic on chars is written out as C does it: a `char` is signed, `%`
 * truncates toward zero, and storing an int into a char keeps its low 8 bits.
 */
module EncDec {

  type byte = x: int | 0 <= x < 256

  // Linux error numbers the driver returns (negated).
  const EINVAL: int := 22
  const ENOTTY: int := 25
  const ENOSPC: int := 28

  // Read states; their numeric values live in encdec.h.
  const READ_STATE_DECRYPT: int := 1

  /** Which file_operations table a file was opened with. */
  datatype Cipher = Caesar | Xor

  /** The ioctl commands of encdec.h; Other stands for every other number. */
  datatype Command = ChangeKey | SetReadState | Zero | Other

  // ---------------------------------------------------------------------
  // C arithmetic on chars
  // ---------------------------------------------------------------------

  /** The value a char holds on the target, where char is signed (two's complement). */
  function Signed(b: byte): (v: int)
    ensures -128 <= v < 128
    ensures b < 128 ==> v == b
    ensures b >= 128 ==> v == b - 256
  {
    if b < 128 then b else b - 256
  }

  /** Storing an int into a char: on the target, its low 8 bits. */
  function ToChar(x: int): (b: byte)
    ensures (x - b) % 256 == 0
    ensures 0 <= x < 256 ==> b == x
    ensures -256 <= x < 0 ==> b == x + 256
  {
    x % 256
  }

  /** C's `%` on int: truncation toward zero, so the result has the sign of a. */
  function CRem(a: int, m: int): (r: int)
    requires m > 0
    ensures a >= 0 ==> r == a % m
    ensures -m < r < m && (a < 0 ==> r <= 0)
  {
    if a >= 0 then a % m else -((-a) % m)
  }

  /** (int)arg on an unsigned long: on the target, the low 32 bits read as two's complement. */
  function ToInt32(arg: nat): (v: int)
    ensures -0x8000_0000 <= v < 0x8000_0000
    ensures (arg - v) % 0x1_0000_0000 == 0
    ensures arg < 0x8000_0000 ==> v == arg
  {
    var w := arg % 0x1_0000_0000;
    if w < 0x8000_0000 then w else w - 0x1_0000_0000
  }

  // ---------------------------------------------------------------------
  // The per-byte transforms
  // ---------------------------------------------------------------------

  /** The Caesar write transform: (b + key) % 128 on a signed char. */
  function CaesarEncrypt(b: byte, key: byte): (r: byte)
    ensures b < 128 ==> r == (b + key) % 128
  {
    ToChar(CRem(Signed(b) + key, 128))
  }

  /** The Caesar decrypting read transform: ((b - key) + 128) % 128 on a signed char. */
  function CaesarDecrypt(b: byte, key: byte): (r: byte)
    ensures b < 128 && key < 128 ==> r == (b - key) % 128
  {
    ToChar(CRem(Signed(b) - key + 128, 128))
  }

  /** Bitwise exclusive or of the low n bits of a and b. */
  function XorBits(a: nat, b: nat, n: nat): nat
    decreases n
  {
    if n == 0 then 0
    else (if a % 2 == b % 2 then 0 else 1) + 2 * XorBits(a / 2, b / 2, n - 1)
  }

  function Pow2(n: nat): (p: nat)
    ensures p >= 1
  {
    if n == 0 then 1 else 2 * Pow2(n - 1)
  }

  /** The exclusive or of n bits fits in n bits. */
  lemma {:induction false} XorBitsBound(a: nat, b: nat, n: nat)
    ensures XorBits(a, b, n) < Pow2(n)
    decreases n
  {
    if n > 0 {
      XorBitsBound(a / 2, b / 2, n - 1);
    }
  }

  /** b ^ key on two chars: bitwise exclusive or of the 8 bits. */
  function XorByte(b: byte, key: byte): byte {
    XorBitsBound(b, key, 8);
    assert Pow2(8) == 256;
    XorBits(b, key, 8)
  }

  /** On 7-bit text with a key below 128, Caesar decryption undoes encryption. */
  lemma CaesarRoundTrip(b: byte, key: byte)
    requires b < 128 && key < 128
    ensures CaesarDecrypt(CaesarEncrypt(b, key), key) == b
  {
  }

  /**
   * Outside that domain it does not: byte 127 written under key 200 reads
   * back as 255, because ((b - key) + 128) can go negative and C's `%` then
   * keeps the sign.
   */
  lemma CaesarRoundTripFailsForLargeKey()
    ensures CaesarDecrypt(CaesarEncrypt(127, 200), 200) == 255
  {
    assert CRem(327, 128) == 71;
    assert CaesarEncrypt(127, 200) == 71;
    assert CRem(-1, 128) == -1;
  }

  /** XOR with the same key twice is the identity, on the low n bits. */
  lemma {:induction false} XorBitsTwice(a: nat, b: nat, n: nat)
    requires a < Pow2(n)
    ensures XorBits(XorBits(a, b, n), b, n) == a
    decreases n
  {
    if n > 0 {
      var r := XorBits(a, b, n);
      var rest := XorBits(a / 2, b / 2, n - 1);
      assert r % 2 == (if a % 2 == b % 2 then 0 else 1) && r / 2 == rest;
      XorBitsTwice(a / 2, b / 2, n - 1);
    }
  }

  /** XOR decryption undoes XOR encryption for every byte and every key. */
  lemma XorRoundTrip(b: byte, key: byte)
    ensures XorByte(XorByte(b, key), key) == b
  {
    assert Pow2(8) == 256;
    XorBitsTwice(b, key, 8);
  }

  // ---------------------------------------------------------------------
  // Device and open-file state
  // ---------------------------------------------------------------------

  /** The module's global state: memory_size and the two device buffers. */
  class Device {
    const memorySize: nat
    const caesarBuf: array<byte>
    const xorBuf: array<byte>

    ghost predicate Valid()
      reads this
    {
      caesarBuf.Length == memorySize && xorBuf.Length == memorySize && caesarBuf != xorBuf
    }

    /** init_module's allocation of two buffers of memory_size bytes each. */
    constructor (memorySize: nat)
      ensures Valid() && this.memorySize == memorySize
      ensures fresh(caesarBuf) && fresh(xorBuf)
    {
      this.memorySize := memorySize;
      caesarBuf := new byte[memorySize];
      xorBuf := new byte[memorySize];
    }

    /** The buffer the given cipher's file operations work on. */
    function BufferOf(c: Cipher): array<byte>
      reads this
    {
      if c == Caesar then caesarBuf else xorBuf
    }
  }

  /** An open file: its cipher (f_op), encdec_private_data, and f_pos. */
  class OpenFile {
    const cipher: Cipher
    var key: byte
    var readState: int
    var pos: nat

    constructor (cipher: Cipher)
      ensures this.cipher == cipher && key == 0 && readState == READ_STATE_DECRYPT && pos == 0
    {
      this.cipher := cipher;
      key := 0;
      readState := READ_STATE_DECRYPT;
      pos := 0;
    }
  }

  /**
   * encdec_open: minor 0 opens the Caesar device, minor 1 the XOR device;
   * any other minor fails with -EINVAL. A new file starts with key 0, in the
   * decrypt read state, at position 0.
   */
  method Open(minor: int) returns (rc: int, file: OpenFile?)
    ensures minor == 0 || minor == 1 <==> rc == 0
    ensures rc == 0 ==> file != null && fresh(file) && file.pos == 0
                        && file.cipher == (if minor == 0 then Caesar else Xor)
                        && file.key == 0 && file.readState == READ_STATE_DECRYPT
    ensures rc != 0 ==> rc == -EINVAL && file == null
  {
    if minor == 0 {
      file := new OpenFile(Caesar);
    } else if minor == 1 {
      file := new OpenFile(Xor);
    } else {
      return -EINVAL, null;
    }
    rc := 0;
  }

  /**
   * encdec_ioctl: CHANGE_KEY keeps the low 8 bits of arg as the key,
   * SET_READ_STATE stores (int)arg, ZERO clears the whole buffer of the
   * file's own cipher; any other command is refused with -ENOTTY.
   */
  method Ioctl(dev: Device, f: OpenFile, cmd: Command, arg: nat) returns (rc: int)
    requires dev.Valid()
    requires arg < 0x1_0000_0000_0000_0000
    modifies f`key, f`readState, dev.caesarBuf, dev.xorBuf
    ensures rc == (if cmd == Other then -ENOTTY else 0)
    ensures f.key == (if cmd == ChangeKey then arg % 256 else old(f.key))
    ensures f.readState == (if cmd == SetReadState then ToInt32(arg) else old(f.readState))
    ensures cmd == Zero ==> forall i :: 0 <= i < dev.memorySize ==> dev.BufferOf(f.cipher)[i] == 0
    ensures cmd == Zero ==> unchanged(dev.BufferOf(if f.cipher == Caesar then Xor else Caesar))
    ensures cmd != Zero ==> unchanged(dev.caesarBuf) && unchanged(dev.xorBuf)
  {
    match cmd {
      case ChangeKey =>
        f.key := arg % 256;
      case SetReadState =>
        f.readState := ToInt32(arg);
      case Zero =>
        var a := if f.cipher == Caesar then dev.caesarBuf else dev.xorBuf;
        forall i | 0 <= i < a.Length {
          a[i] := 0;
        }
      case Other =>
        return -ENOTTY;
    }
    rc := 0;
  }

  /**
   * The loop of every read and write: each byte a[from + i] with i below
   * count becomes t(a[from + i], key), and no other byte of a changes.
   */
  method TransformRange(a: array<byte>, from: nat, count: nat, t: (byte, byte) -> byte, key: byte)
    requires from + count <= a.Length
    modifies a
    ensures forall i :: from <= i < from + count ==> a[i] == t(old(a[i]), key)
    ensures forall i :: 0 <= i < a.Length && !(from <= i < from + count) ==> a[i] == old(a[i])
  {
    for k := from to from + count
      invariant forall i :: from <= i < k ==> a[i] == t(old(a[i]), key)
      invariant forall i :: 0 <= i < a.Length && !(from <= i < k) ==> a[i] == old(a[i])
    {
      a[k] := t(a[k], key);
    }
  }

  /**
   * encdec_read_caesar: at a position past the buffer, -EINVAL and nothing
   * changes. Otherwise count bytes from the position are copied to buf and,
   * in the decrypt read state, decrypted there; the position advances by
   * count, which is also returned.
   */
  method ReadCaesar(dev: Device, f: OpenFile, buf: array<byte>, count: nat) returns (rc: int)
    requires dev.Valid() && buf != dev.caesarBuf && buf != dev.xorBuf
    requires count <= buf.Length
    requires f.pos < dev.memorySize ==> f.pos + count <= dev.memorySize
    modifies buf, f`pos
    ensures old(f.pos) >= dev.memorySize ==> rc == -EINVAL && f.pos == old(f.pos) && unchanged(buf)
    ensures old(f.pos) < dev.memorySize ==> rc == count && f.pos == old(f.pos) + count
    ensures old(f.pos) < dev.memorySize && f.readState == READ_STATE_DECRYPT ==>
              forall i :: 0 <= i < count ==> buf[i] == CaesarDecrypt(dev.caesarBuf[old(f.pos) + i], f.key)
    ensures old(f.pos) < dev.memorySize && f.readState != READ_STATE_DECRYPT ==>
              forall i :: 0 <= i < count ==> buf[i] == dev.caesarBuf[old(f.pos) + i]
    ensures forall i :: count <= i < buf.Length ==> buf[i] == old(buf[i])
  {
    if f.pos >= dev.memorySize {
      return -EINVAL;
    }
    var pos := f.pos;
    // copy_to_user, taken to copy all count bytes
    forall i | 0 <= i < count {
      buf[i] := dev.caesarBuf[pos + i];
    }
    if f.readState == READ_STATE_DECRYPT {
      TransformRange(buf, 0, count, CaesarDecrypt, f.key);
    }
    f.pos := pos + count;
    rc := count;
  }

  /**
   * encdec_write_caesar: at a position past the buffer, -ENOSPC and nothing
   * changes. Otherwise the count bytes of src are stored from the position
   * on, each encrypted; no other byte of either buffer changes, and the
   * position advances by count, which is also returned.
   */
  method WriteCaesar(dev: Device, f: OpenFile, src: seq<byte>, count: nat) returns (rc: int)
    requires dev.Valid() && count <= |src|
    requires f.pos < dev.memorySize ==> f.pos + count <= dev.memorySize
    modifies dev.caesarBuf, f`pos
    ensures old(f.pos) >= dev.memorySize ==> rc == -ENOSPC && f.pos == old(f.pos) && unchanged(dev.caesarBuf)
    ensures old(f.pos) < dev.memorySize ==> rc == count && f.pos == old(f.pos) + count
    ensures old(f.pos) < dev.memorySize ==>
              forall i :: 0 <= i < count ==> dev.caesarBuf[old(f.pos) + i] == CaesarEncrypt(src[i], f.key)
    ensures forall j :: 0 <= j < dev.memorySize && !(old(f.pos) <= j < old(f.pos) + count) ==>
              dev.caesarBuf[j] == old(dev.caesarBuf[j])
    ensures unchanged(dev.xorBuf)
  {
    if f.pos >= dev.memorySize {
      return -ENOSPC;
    }
    var pos := f.pos;
    var a := dev.caesarBuf;
    // copy_from_user, taken to copy all count bytes
    forall i | 0 <= i < count {
      a[pos + i] := src[i];
    }
    TransformRange(a, pos, count, CaesarEncrypt, f.key);
    f.pos := pos + count;
    rc := count;
  }

  /** encdec_read_xor: as ReadCaesar, on the XOR buffer with the XOR transform. */
  method ReadXor(dev: Device, f: OpenFile, buf: array<byte>, count: nat) returns (rc: int)
    requires dev.Valid() && buf != dev.caesarBuf && buf != dev.xorBuf
    requires count <= buf.Length
    requires f.pos < dev.memorySize ==> f.pos + count <= dev.memorySize
    modifies buf, f`pos
    ensures old(f.pos) >= dev.memorySize ==> rc == -EINVAL && f.pos == old(f.pos) && unchanged(buf)
    ensures old(f.pos) < dev.memorySize ==> rc == count && f.pos == old(f.pos) + count
    ensures old(f.pos) < dev.memorySize && f.readState == READ_STATE_DECRYPT ==>
              forall i :: 0 <= i < count ==> buf[i] == XorByte(dev.xorBuf[old(f.pos) + i], f.key)
    ensures old(f.pos) < dev.memorySize && f.readState != READ_STATE_DECRYPT ==>
              forall i :: 0 <= i < count ==> buf[i] == dev.xorBuf[old(f.pos) + i]
    ensures forall i :: count <= i < buf.Length ==> buf[i] == old(buf[i])
  {
    if f.pos >= dev.memorySize {
      return -EINVAL;
    }
    var pos := f.pos;
    // copy_to_user, taken to copy all count bytes
    forall i | 0 <= i < count {
      buf[i] := dev.xorBuf[pos + i];
    }
    if f.readState == READ_STATE_DECRYPT {
      TransformRange(buf, 0, count, XorByte, f.key);
    }
    f.pos := pos + count;
    rc := count;
  }

  /** encdec_write_xor: as WriteCaesar, on the XOR buffer with the XOR transform. */
  method WriteXor(dev: Device, f: OpenFile, src: seq<byte>, count: nat) returns (rc: int)
    requires dev.Valid() && count <= |src|
    requires f.pos < dev.memorySize ==> f.pos + count <= dev.memorySize
    modifies dev.xorBuf, f`pos
    ensures old(f.pos) >= dev.memorySize ==> rc == -ENOSPC && f.pos == old(f.pos) && unchanged(dev.xorBuf)
    ensures old(f.pos) < dev.memorySize ==> rc == count && f.pos == old(f.pos) + count
    ensures old(f.pos) < dev.memorySize ==>
              forall i :: 0 <= i < count ==> dev.xorBuf[old(f.pos) + i] == XorByte(src[i], f.key)
    ensures forall j :: 0 <= j < dev.memorySize && !(old(f.pos) <= j < old(f.pos) + count) ==>
              dev.xorBuf[j] == old(dev.xorBuf[j])
    ensures unchanged(dev.caesarBuf)
  {
    if f.pos >= dev.memorySize {
      return -ENOSPC;
    }
    var pos := f.pos;
    var a := dev.xorBuf;
    // copy_from_user, taken to copy all count bytes
    forall i | 0 <= i < count {
      a[pos + i] := src[i];
    }
    TransformRange(a, pos, count, XorByte, f.key);
    f.pos := pos + count;
    rc := count;
  }

  // ---------------------------------------------------------------------
  // Writing through one open file and reading back through another
  // ---------------------------------------------------------------------

  /**
   * A writer opens the XOR device, sets a key and writes src; a reader opens
   * the device afresh (position 0, decrypt read state), sets the same key
   * and reads |src| bytes: it gets src back, whatever the key.
   */
  method XorEcho(dev: Device, key: byte, src: seq<byte>) returns (out: seq<byte>)
    requires dev.Valid() && |src| <= dev.memorySize
    modifies dev.caesarBuf, dev.xorBuf
    ensures out == src
  {
    var _, w := Open(1);
    var _ := Ioctl(dev, w, ChangeKey, key);
    assert w.key == key && w.pos == 0;
    var _ := WriteXor(dev, w, src, |src|);
    ghost var stored := dev.xorBuf[..|src|];
    assert forall i :: 0 <= i < |src| ==> stored[i] == XorByte(src[i], key);
    var _, r := Open(1);
    var _ := Ioctl(dev, r, ChangeKey, key);
    assert dev.xorBuf[..|src|] == stored;
    assert r.key == key && r.readState == READ_STATE_DECRYPT && r.pos == 0;
    var buf := new byte[|src|];
    var _ := ReadXor(dev, r, buf, |src|);
    forall i | 0 <= i < |src| ensures buf[i] == src[i] {
      XorRoundTrip(src[i], key);
    }
    out := buf[..];
  }

  /** The same through the Caesar device, for 7-bit text and a key below 128. */
  method CaesarEcho(dev: Device, key: byte, src: seq<byte>) returns (out: seq<byte>)
    requires dev.Valid() && |src| <= dev.memorySize && key < 128
    requires forall i :: 0 <= i < |src| ==> src[i] < 128
    modifies dev.caesarBuf, dev.xorBuf
    ensures out == src
  {
    var _, w := Open(0);
    var _ := Ioctl(dev, w, ChangeKey, key);
    assert w.key == key && w.pos == 0;
    var _ := WriteCaesar(dev, w, src, |src|);
    ghost var stored := dev.caesarBuf[..|src|];
    assert forall i :: 0 <= i < |src| ==> stored[i] == CaesarEncrypt(src[i], key);
    var _, r := Open(0);
    var _ := Ioctl(dev, r, ChangeKey, key);
    assert dev.caesarBuf[..|src|] == stored;
    assert r.key == key && r.readState == READ_STATE_DECRYPT && r.pos == 0;
    var buf := new byte[|src|];
    var _ := ReadCaesar(dev, r, buf, |src|);
    forall i | 0 <= i < |src| ensures buf[i] == src[i] {
      CaesarRoundTrip(src[i], key);
    }
    out := buf[..];
  }
}
