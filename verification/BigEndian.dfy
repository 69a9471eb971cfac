/** base/big_endian: numbers in network byte order, one at a time and through the
    reader's and the writer's cursor.  A number of `n` bytes is below 256^n. */
module BigEndian {
  import opened Basics
  import opened Words

  type Byte = b: nat | b < 256

  function Pow256(n: nat): (r: nat)
    ensures r > 0
  {
    if n == 0 then 1 else 256 * Pow256(n - 1)
  }

  // ----- what the bytes mean

  /** The number that `s` writes in base 256. */
  function Value(s: seq<Byte>): nat {
    if s == [] then 0 else Value(s[..|s| - 1]) * 256 + s[|s| - 1]
  }

  /** The `n` lowest digits of `v`. */
  function Bytes(n: nat, v: nat): (s: seq<Byte>)
    ensures |s| == n
  {
    if n == 0 then [] else Bytes(n - 1, v / 256) + [v % 256]
  }

  lemma {:induction false} ValueBytes(n: nat, v: nat)
    requires v < Pow256(n)
    ensures Value(Bytes(n, v)) == v
  {
    if n > 0 {
      ValueBytes(n - 1, v / 256);
      assert Bytes(n, v)[..n - 1] == Bytes(n - 1, v / 256);
    }
  }

  lemma {:induction false} BytesValue(s: seq<Byte>)
    ensures Value(s) < Pow256(|s|) && Bytes(|s|, Value(s)) == s
    decreases |s|
  {
    if s != [] {
      var front, low := s[..|s| - 1], s[|s| - 1];
      BytesValue(front);
      LastByte(Value(front), low, Pow256(|front|));
      assert s == front + [low];
    }
  }

  lemma LastByte(rest: nat, low: Byte, limit: nat)
    requires rest < limit
    ensures (rest * 256 + low) / 256 == rest && (rest * 256 + low) % 256 == low && rest * 256 + low < 256 * limit
  {}

  /** Network order: the byte at `j` has the weight of the bytes after it. */
  lemma {:induction false} BytesAt(n: nat, v: nat, j: nat)
    requires j < n
    ensures Bytes(n, v)[j] == v / Pow256(n - 1 - j) % 256
    decreases n
  {
    if j < n - 1 {
      BytesAt(n - 1, v / 256, j);
      DivTwice(v, Pow256(n - 2 - j));
    }
  }

  lemma DivTwice(v: nat, p: nat)
    requires p > 0
    ensures v / 256 / p == v / (256 * p)
  {
    var q, r := Divide(v / 256, p);
    Scale(q, p);
    DivModOf(v, 256 * p, q, 256 * r + v % 256);
  }

  // ----- the loops

  /** A char as a number; `signed` is whether the platform's char is. */
  function CharValue(b: Byte, signed: bool): int {
    if signed && b >= 128 then b - 256 else b
  }

  /** What is left of a negative first char after `i` bytes. */
  function Borrow(b: Byte, signed: bool, i: nat): nat {
    if signed && b >= 128 then Pow256(i) else 0
  }

  /** One turn of the reading loop: shift left in `m` = 256^n, or in the byte. */
  lemma ShiftIn(a: int, b: Byte, below: nat)
    requires below > 0
    ensures var m := 256 * below;
      Or(a % m * 256 % m, b) == (a * 256 + b) % m
  {
    var m := 256 * below;
    var low := a % m % below;
    ScaleMod(a % m, below);
    assert a % m * 256 % m == 256 * low;
    assert Pow2(8) == 256;
    OrAdds(low, b, 8);
    ShiftedMod(a, b, below, low);
  }

  lemma ScaleMod(x: nat, below: nat)
    requires below > 0
    ensures x * 256 % (256 * below) == 256 * (x % below)
  {
    var q, r := Divide(x, below);
    Scale(q, below);
    DivModOf(x * 256, 256 * below, q, 256 * r);
  }

  lemma Scale(q: int, below: nat)
    ensures q * (256 * below) == 256 * (q * below)
  {}

  lemma ShiftedMod(a: int, b: Byte, below: nat, low: nat)
    requires below > 0 && low == a % (256 * below) % below
    ensures (a * 256 + b) % (256 * below) == 256 * low + b
  {
    var m := 256 * below;
    var x, t := a % m, a / m;
    assert a == t * m + x;
    var q, r := Divide(x, below);
    Scale(q, below);
    Combine(t, q, m);
    assert a * 256 + b == (256 * t + q) * m + (256 * r + b);
    DivModOf(a * 256 + b, m, 256 * t + q, 256 * r + b);
  }

  lemma Combine(t: int, q: int, m: int)
    ensures (256 * t + q) * m == 256 * (t * m) + q * m
  {}

  lemma FinalMod(v: nat, m: nat, borrow: nat)
    requires v < m && (borrow == 0 || borrow == m)
    ensures (v - borrow) % m == v
  {
    DivModOf(v - borrow, m, if borrow == 0 then 0 else -1, v);
  }

  /** The first char, converted to the width. */
  function FirstChar(b: Byte, signed: bool, n: nat): nat {
    CharValue(b, signed) % Pow256(n)
  }

  /** One turn of the loop: shift left, and or in the next byte. */
  function ShiftedIn(out: nat, b: Byte, n: nat): nat {
    Or(out * 256 % Pow256(n), b)
  }

  /** The number read after `i` bytes. */
  ghost function ReadSoFar(buf: seq<Byte>, i: nat, n: nat, signed: bool): nat
    requires 1 <= i <= |buf|
  {
    (Value(buf[..i]) - Borrow(buf[0], signed, i)) % Pow256(n)
  }

  lemma ReadFirst(buf: seq<Byte>, n: nat, signed: bool)
    requires buf != []
    ensures FirstChar(buf[0], signed, n) == ReadSoFar(buf, 1, n, signed)
  {
    var one := buf[..1];
    assert one == [buf[0]] && one[..0] == [];
    assert Value(one) == buf[0];
    assert Pow256(1) == 256;
  }

  /** Once all bytes are in, nothing is left of a negative first char. */
  lemma ReadLast(buf: seq<Byte>, n: nat, signed: bool)
    requires 1 <= n <= |buf|
    ensures ReadSoFar(buf, n, n, signed) == Value(buf[..n]) < Pow256(n)
  {
    BytesValue(buf[..n]);
    FinalMod(Value(buf[..n]), Pow256(n), Borrow(buf[0], signed, n));
  }

  lemma ReadTurn(buf: seq<Byte>, i: nat, n: nat, signed: bool)
    requires 1 <= i < n <= |buf|
    ensures ShiftedIn(ReadSoFar(buf, i, n, signed), buf[i], n) == ReadSoFar(buf, i + 1, n, signed)
  {
    OneByteMore(buf, i, signed);
    ShiftIn(Value(buf[..i]) - Borrow(buf[0], signed, i), buf[i], Pow256(n - 1));
    assert Pow256(n) == 256 * Pow256(n - 1);
  }

  lemma OneByteMore(buf: seq<Byte>, i: nat, signed: bool)
    requires 1 <= i < |buf|
    ensures Value(buf[..i + 1]) - Borrow(buf[0], signed, i + 1) ==
      (Value(buf[..i]) - Borrow(buf[0], signed, i)) * 256 + buf[i]
  {
    assert buf[..i + 1][..i] == buf[..i];
    assert Pow256(i + 1) == 256 * Pow256(i);
  }

  /** For every width the number read is what the bytes say, though the first
      byte may have been sign-extended. */
  method ReadBigEndian(buf: seq<Byte>, n: nat, signed: bool) returns (out: nat)
    requires 1 <= n <= |buf|
    ensures out == Value(buf[..n]) < Pow256(n)
  {
    out := FirstChar(buf[0], signed, n);
    ReadFirst(buf, n, signed);
    var i := 1;
    while i < n
      invariant 1 <= i <= n && out == ReadSoFar(buf, i, n, signed)
    {
      ReadTurn(buf, i, n, signed);
      out := ShiftedIn(out, buf[i], n);
      i := i + 1;
    }
    ReadLast(buf, n, signed);
  }

  lemma LowByte(v: nat)
    ensures And(v, 0xFF) == v % 256
  {
    assert Pow2(8) == 256;
    AndLow(v, 8, 256, v / 256, v % 256);
  }

  method WriteBigEndian(buf: array<Byte>, at: nat, n: nat, value: nat)
    requires at + n <= buf.Length
    modifies buf
    ensures buf[..] == old(buf[..at]) + Bytes(n, value) + old(buf[at + n..])
  {
    var val, i := value, 0;
    while i < n
      invariant 0 <= i <= n
      invariant Bytes(n, value) == Bytes(n - i, val) + buf[at + n - i..at + n]
      invariant buf[..at] == old(buf[..at]) && buf[at + n..] == old(buf[at + n..])
    {
      LowByte(val);
      ghost var was := buf[at + n - i..at + n];
      buf[at + n - i - 1] := And(val, 0xFF);
      assert buf[at + n - i - 1..at + n] == [val % 256] + was;
      val := val / 256;
      i := i + 1;
    }
    assert buf[..] == buf[..at] + buf[at..at + n] + buf[at + n..];
  }

  // ----- the cursors

  /** An operation: what is written, or what a reading operation found. */
  datatype Op = Skip(len: nat) | Raw(data: seq<Byte>) | Number(width: nat, value: nat)

  predicate Legal(op: Op) {
    op.Number? ==> op.width >= 1 && op.value < Pow256(op.width)
  }

  function Size(op: Op): nat {
    match op
    case Skip(len) => len
    case Raw(data) => |data|
    case Number(width, _) => width
  }

  /** A buffer and the position in it. */
  datatype Cursor = Cursor(bytes: seq<Byte>, pos: nat)

  ghost predicate Within(c: Cursor) {
    c.pos <= |c.bytes|
  }

  predicate Fits(c: Cursor, op: Op) {
    c.pos + Size(op) <= |c.bytes|
  }

  /** What the writer puts where it stands. */
  function Written(c: Cursor, op: Op): (s: seq<Byte>)
    requires Fits(c, op)
    ensures |s| == Size(op)
  {
    match op
    case Skip(len) => c.bytes[c.pos..c.pos + len]
    case Raw(data) => data
    case Number(width, value) => Bytes(width, value)
  }

  /** A failed operation moves nothing. */
  function WriteStep(c: Cursor, op: Op): Cursor {
    if !Fits(c, op) then c
    else Cursor(c.bytes[..c.pos] + Written(c, op) + c.bytes[c.pos + Size(op)..], c.pos + Size(op))
  }

  /** What the matching reading operation finds. */
  function Found(c: Cursor, op: Op): Op
    requires Fits(c, op)
  {
    var s := c.bytes[c.pos..c.pos + Size(op)];
    match op
    case Skip(len) => Skip(len)
    case Raw(_) => Raw(s)
    case Number(width, _) => Number(width, Value(s))
  }

  function ReadStep(c: Cursor, op: Op): (Cursor, Option<Op>) {
    if Fits(c, op) then (c.(pos := c.pos + Size(op)), Some(Found(c, op))) else (c, None)
  }

  function WriteAll(c: Cursor, ops: seq<Op>): Cursor
    decreases |ops|
  {
    if ops == [] then c else WriteAll(WriteStep(c, ops[0]), ops[1..])
  }

  /** The answers of reading operations of the same kinds and sizes. */
  function ReadAll(c: Cursor, ops: seq<Op>): (Cursor, seq<Option<Op>>)
    decreases |ops|
  {
    if ops == [] then (c, [])
    else
      var (next, answer) := ReadStep(c, ops[0]);
      var (last, answers) := ReadAll(next, ops[1..]);
      (last, [answer] + answers)
  }

  /** Which of the writes succeed. */
  function Succeed(c: Cursor, ops: seq<Op>): seq<Option<Op>>
    decreases |ops|
  {
    if ops == [] then []
    else [if Fits(c, ops[0]) then Some(ops[0]) else None] + Succeed(WriteStep(c, ops[0]), ops[1..])
  }

  /** Writing never touches what lies before the cursor. */
  lemma {:induction false} WritesGoForward(c: Cursor, ops: seq<Op>)
    requires Within(c)
    ensures var r := WriteAll(c, ops);
      Within(r) && |r.bytes| == |c.bytes| && r.pos >= c.pos && r.bytes[..c.pos] == c.bytes[..c.pos]
    decreases |ops|
  {
    if ops != [] {
      var next := WriteStep(c, ops[0]);
      assert next.bytes[..c.pos] == c.bytes[..c.pos];
      WritesGoForward(next, ops[1..]);
      var r := WriteAll(next, ops[1..]);
      assert r.bytes[..c.pos] == r.bytes[..next.pos][..c.pos];
      assert next.bytes[..c.pos] == next.bytes[..next.pos][..c.pos];
    }
  }

  /** A reader standing where the write began finds what was written. */
  lemma FindsWritten(c: Cursor, op: Op, bytes: seq<Byte>)
    requires Within(c) && Legal(op) && Fits(c, op)
    requires |bytes| == |c.bytes|
    requires var end := c.pos + Size(op); bytes[..end] == WriteStep(c, op).bytes[..end]
    ensures Found(Cursor(bytes, c.pos), op) == op
  {
    var end := c.pos + Size(op);
    var after := WriteStep(c, op).bytes;
    assert after[c.pos..end] == Written(c, op);
    assert bytes[c.pos..end] == bytes[..end][c.pos..] == after[..end][c.pos..] == after[c.pos..end];
    if op.Number? {
      ValueBytes(op.width, op.value);
    }
  }

  /** Whatever is written, failing operations included, a reader of the final
      buffer that makes the matching operations from the same place succeeds and
      fails where the writer did, recovers every value, and ends where it did. */
  lemma {:induction false} ReadBack(c: Cursor, ops: seq<Op>)
    requires Within(c) && forall i :: 0 <= i < |ops| ==> Legal(ops[i])
    ensures var end := WriteAll(c, ops);
      ReadAll(Cursor(end.bytes, c.pos), ops) == (end, Succeed(c, ops))
    decreases |ops|
  {
    if ops != [] {
      var op, next := ops[0], WriteStep(c, ops[0]);
      var end := WriteAll(next, ops[1..]);
      WritesGoForward(next, ops[1..]);
      ReadBack(next, ops[1..]);
      var reader := Cursor(end.bytes, c.pos);
      assert |next.bytes| == |c.bytes|;
      assert Fits(reader, op) <==> Fits(c, op);
      if Fits(c, op) {
        FindsWritten(c, op, end.bytes);
      }
      assert ReadStep(reader, op) == (Cursor(end.bytes, next.pos), if Fits(c, op) then Some(op) else None);
    }
  }

  // ----- the objects

  class BigEndianWriter {
    const buf: array<Byte>
    var pos: nat

    ghost predicate Valid()
      reads this
    {
      pos <= buf.Length
    }

    ghost function View(): Cursor
      reads this, buf
    {
      Cursor(buf[..], pos)
    }

    constructor (buf: array<Byte>)
      ensures Valid() && this.buf == buf && pos == 0
    {
      this.buf, pos := buf, 0;
    }

    method Skip(len: nat) returns (ok: bool)
      requires Valid()
      modifies this
      ensures Valid() && View() == WriteStep(old(View()), Op.Skip(len))
      ensures ok <==> Fits(old(View()), Op.Skip(len))
    {
      if pos + len > buf.Length { return false; }
      assert buf[..] == buf[..pos] + buf[pos..pos + len] + buf[pos + len..];
      assert buf[..][..pos] == buf[..pos] && buf[..][pos + len..] == buf[pos + len..];
      pos := pos + len;
      return true;
    }

    method WriteBytes(data: seq<Byte>) returns (ok: bool)
      requires Valid()
      modifies this, buf
      ensures Valid() && View() == WriteStep(old(View()), Raw(data))
      ensures ok <==> Fits(old(View()), Raw(data))
    {
      if pos + |data| > buf.Length { return false; }
      ghost var was := buf[..];
      forall i | 0 <= i < |data| {
        buf[pos + i] := data[i];
      }
      assert buf[..] == was[..pos] + data + was[pos + |data|..];
      pos := pos + |data|;
      return true;
    }

    /** WriteU8, WriteU16, WriteU32 and WriteU64, by width. */
    method Write(width: nat, value: nat) returns (ok: bool)
      requires Valid() && Legal(Number(width, value))
      modifies this, buf
      ensures Valid() && View() == WriteStep(old(View()), Number(width, value))
      ensures ok <==> Fits(old(View()), Number(width, value))
    {
      if pos + width > buf.Length { return false; }
      ghost var was := buf[..];
      assert was[..pos] == buf[..pos] && was[pos + width..] == buf[pos + width..];
      WriteBigEndian(buf, pos, width, value);
      pos := pos + width;
      return true;
    }
  }

  class BigEndianReader {
    const buf: seq<Byte>
    const signed: bool
    var pos: nat

    ghost predicate Valid()
      reads this
    {
      pos <= |buf|
    }

    ghost function View(): Cursor
      reads this
    {
      Cursor(buf, pos)
    }

    constructor (buf: seq<Byte>, signed: bool)
      ensures Valid() && this.buf == buf && this.signed == signed && pos == 0
    {
      this.buf, this.signed, pos := buf, signed, 0;
    }

    method Skip(len: nat) returns (ok: bool)
      requires Valid()
      modifies this
      ensures Valid() && (View(), if ok then Some(Op.Skip(len)) else None) == ReadStep(old(View()), Op.Skip(len))
    {
      if pos + len > |buf| { return false; }
      pos := pos + len;
      return true;
    }

    /** ReadBytes and ReadPiece. */
    method ReadBytes(len: nat) returns (ok: bool, data: seq<Byte>)
      requires Valid()
      modifies this
      ensures Valid() && ok == (old(pos) + len <= |buf|)
      ensures |data| == if ok then len else 0
      ensures ok ==> (View(), Some(Raw(data))) == ReadStep(old(View()), Raw(data))
      ensures !ok ==> View() == old(View())
    {
      if pos + len > |buf| { return false, []; }
      data := buf[pos..pos + len];
      pos := pos + len;
      return true, data;
    }

    /** ReadU8, ReadU16, ReadU32 and ReadU64, by width. */
    method Read(width: nat) returns (ok: bool, value: nat)
      requires Valid() && width >= 1
      modifies this
      ensures Valid()
      ensures (View(), if ok then Some(Number(width, value)) else None) == ReadStep(old(View()), Number(width, 0))
    {
      if pos + width > |buf| { return false, 0; }
      value := ReadBigEndian(buf[pos..], width, signed);
      assert buf[pos..][..width] == buf[pos..pos + width];
      pos := pos + width;
      return true, value;
    }
  }
}
