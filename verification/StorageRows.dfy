/** Rows of a relation in a file: values as bytes, rows one behind the other, and reading them back. */
module StorageRows {

  import opened Arithmetic
  import opened Bytes

  const ROW_XOR: bv8 := 0xF6

  // ----- Values and their bytes

  datatype Domain = STRING | INT | LONG

  datatype Attribute = Attribute(domain: Domain, elementSize: nat, removed: bool) {
    predicate Valid() {
      match domain
      case STRING => elementSize > 0
      case INT => elementSize == 2
      case LONG => elementSize == 4
    }
  }

  /** A value: a cell that is used as an int or a long, or the memory that a string pointer refers to. */
  datatype Value = Number(domain: Domain, cell: int) | Text(memory: seq<byte>) {
    function DomainOf(): Domain { if Text? then STRING else domain }
  }

  /** An attribute takes values of its domain, and one of longs takes ints as well. As many bytes as a
      string has room for are read from its memory. */
  predicate Accepts(a: Attribute, v: Value) {
    && (a.domain == v.DomainOf() || (a.domain == LONG && v.DomainOf() == INT))
    && (v.Number? ==> v.domain != STRING)
  }

  predicate Readable(a: Attribute, v: Value) { v.Text? ==> a.elementSize <= |v.memory| }

  function ToPhy(a: Attribute, v: Value): (r: seq<byte>)
    requires a.Valid() && Accepts(a, v) && Readable(a, v)
    ensures |r| == a.elementSize
  {
    match a.domain
    case STRING => v.memory[..a.elementSize - 1] + [0]
    case INT => [v.cell / 0x100 % 0x100, v.cell % 0x100]
    case LONG => [v.cell / 0x100_0000 % 0x100, v.cell / 0x1_0000 % 0x100, v.cell / 0x100 % 0x100, v.cell % 0x100]
  }

  function FromPhy(a: Attribute, b: seq<byte>): Value
    requires a.Valid() && |b| == a.elementSize
  {
    match a.domain
    case STRING => Text(b[..a.elementSize - 1] + [0])
    case INT => Number(INT, b[0] as int * 0x100 + b[1])
    case LONG => Number(LONG, b[0] as int * 0x100_0000 + b[1] as int * 0x1_0000 + b[2] as int * 0x100 + b[3])
  }

  function Zeros(n: nat): (r: seq<byte>)
    ensures |r| == n && forall i | 0 <= i < n :: r[i] == 0
  {
    if n == 0 then [] else Zeros(n - 1) + [0]
  }

  /** What is stored of a value. */
  function Field(a: Attribute, v: Value): (r: seq<byte>)
    requires a.Valid() && Accepts(a, v) && Readable(a, v)
    ensures |r| == a.elementSize
  {
    if a.removed then Zeros(a.elementSize) else ToPhy(a, v)
  }

  /** A value as it is read back: numbers in the width of their domain, strings cut to the element size
      with a zero at the end. */
  function Recovered(a: Attribute, v: Value): Value
    requires a.Valid() && Accepts(a, v) && Readable(a, v)
  {
    match a.domain
    case STRING => Text((if a.removed then Zeros(a.elementSize) else v.memory)[..a.elementSize - 1] + [0])
    case INT => Number(INT, if a.removed then 0 else v.cell % 0x1_0000)
    case LONG => Number(LONG, if a.removed then 0 else v.cell % 0x1_0000_0000)
  }

  lemma ValueComesBack(a: Attribute, v: Value)
    requires a.Valid() && Accepts(a, v) && Readable(a, v)
    ensures FromPhy(a, Field(a, v)) == Recovered(a, v)
  {
    if a.domain.INT? {
      Digits2(v.cell);
    } else if a.domain.LONG? {
      Digits4(v.cell);
    }
  }

  lemma Digits2(c: int)
    ensures c / 0x100 % 0x100 * 0x100 + c % 0x100 == c % 0x1_0000
  {
    var k, x := c / 0x1_0000, c % 0x1_0000;
    var d1, d0 := x / 0x100, x % 0x100;
    Divides(c, 0x100, k * 0x100 + d1, d0);
    Divides(k * 0x100 + d1, 0x100, k, d1);
  }

  lemma Digits4(c: int)
    ensures c / 0x100_0000 % 0x100 * 0x100_0000 + c / 0x1_0000 % 0x100 * 0x1_0000 + c / 0x100 % 0x100 * 0x100 + c % 0x100
            == c % 0x1_0000_0000
  {
    var high, low := c / 0x1_0000, c % 0x1_0000;
    var k, x := high / 0x1_0000, high % 0x1_0000;
    Digits2(c);
    Digits2(high);
    Divides(c, 0x100_0000, high / 0x100, high % 0x100 * 0x1_0000 + low);
    Divides(c, 0x1_0000_0000, k, x * 0x1_0000 + low);
  }

  // ----- Rows

  function RowLength(attrs: seq<Attribute>): nat {
    if attrs == [] then 0 else RowLength(attrs[..|attrs| - 1]) + attrs[|attrs| - 1].elementSize
  }

  predicate ValidAttributes(attrs: seq<Attribute>) { forall a | a in attrs :: a.Valid() }

  predicate Matching(attrs: seq<Attribute>, values: seq<Value>) {
    |attrs| == |values| && forall c | 0 <= c < |attrs| :: Accepts(attrs[c], values[c]) && Readable(attrs[c], values[c])
  }

  function RowOf(attrs: seq<Attribute>, values: seq<Value>): (r: seq<byte>)
    requires ValidAttributes(attrs) && Matching(attrs, values)
    ensures |r| == RowLength(attrs)
  {
    if attrs == [] then []
    else
      var n := |attrs| - 1;
      RowOf(attrs[..n], values[..n]) + Field(attrs[n], values[n])
  }

  lemma {:induction false} OffsetsFit(attrs: seq<Attribute>, c: nat)
    requires c < |attrs|
    ensures RowLength(attrs[..c]) + attrs[c].elementSize == RowLength(attrs[..c + 1]) <= RowLength(attrs)
    decreases |attrs|
  {
    assert attrs[..c + 1][..c] == attrs[..c];
    if c + 1 < |attrs| {
      OffsetsFit(attrs[..|attrs| - 1], c);
      assert attrs[..|attrs| - 1][..c + 1] == attrs[..c + 1] && attrs[..|attrs| - 1][..c] == attrs[..c];
    } else {
      assert attrs[..c + 1] == attrs;
    }
  }

  lemma SliceBefore(a: seq<byte>, b: seq<byte>, from: nat, upto: nat)
    requires from <= upto <= |a|
    ensures (a + b)[from..upto] == a[from..upto]
  {
  }

  lemma SliceBehind(a: seq<byte>, b: seq<byte>)
    ensures (a + b)[|a|..|a| + |b|] == b
  {
  }

  lemma RowOfMore(attrs: seq<Attribute>, values: seq<Value>)
    requires ValidAttributes(attrs) && Matching(attrs, values) && attrs != []
    ensures var n := |attrs| - 1;
      && ValidAttributes(attrs[..n]) && Matching(attrs[..n], values[..n])
      && attrs[n].Valid() && Accepts(attrs[n], values[n]) && Readable(attrs[n], values[n])
      && RowLength(attrs) == RowLength(attrs[..n]) + attrs[n].elementSize
      && RowOf(attrs, values) == RowOf(attrs[..n], values[..n]) + Field(attrs[n], values[n])
  {
    hide Field, Accepts, Readable;
  }

  /** The value in a column lies at the sum of the sizes before it. */
  lemma {:induction false} FieldInRow(attrs: seq<Attribute>, values: seq<Value>, c: nat)
    requires ValidAttributes(attrs) && Matching(attrs, values) && c < |attrs|
    ensures RowLength(attrs[..c]) + attrs[c].elementSize <= RowLength(attrs)
    ensures RowOf(attrs, values)[RowLength(attrs[..c])..RowLength(attrs[..c]) + attrs[c].elementSize] ==
      Field(attrs[c], values[c])
    decreases |attrs|
  {
    hide Field, Accepts, Readable, RowOf, RowLength;
    var n := |attrs| - 1;
    OffsetsFit(attrs, c);
    RowOfMore(attrs, values);
    if c < n {
      FieldInRow(attrs[..n], values[..n], c);
      assert attrs[..n][..c] == attrs[..c];
      SliceBefore(RowOf(attrs[..n], values[..n]), Field(attrs[n], values[n]),
                  RowLength(attrs[..c]), RowLength(attrs[..c]) + attrs[c].elementSize);
    } else {
      SliceBehind(RowOf(attrs[..n], values[..n]), Field(attrs[n], values[n]));
    }
  }

  // ----- The file

  /** The last byte of a row is changed so that it is not zero by accident: the exclusive or with
      0xF6 turns all bits around but the lowest and the fourth. */
  function Flip(b: byte): byte { (15 - b / 16) * 16 + b / 8 % 2 * 8 + (3 - b / 2 % 4) * 2 + b % 2 }

  lemma FlipIsXor(v: bv8)
    ensures (15 - v / 16) * 16 + v / 8 % 2 * 8 + (3 - v / 2 % 4) * 2 + v % 2 == v ^ ROW_XOR
  {
  }

  lemma FlipTwice(b: byte)
    ensures Flip(Flip(b)) == b
  {
    hide Flip;
    var h, low := b / 16, b % 16;
    var f, rest := low / 8, low % 8;
    FlipOf(h, f, rest / 2, rest % 2);
    FlipOf(15 - h, f, 3 - rest / 2, rest % 2);
  }

  lemma FlipOf(h: nat, f: nat, m: nat, l: nat)
    requires h < 16 && f < 2 && m < 4 && l < 2
    ensures Flip(h * 16 + f * 8 + m * 2 + l) == (15 - h) * 16 + f * 8 + (3 - m) * 2 + l
  {
    var b := h * 16 + f * 8 + m * 2 + l;
    Divides(b, 16, h, f * 8 + m * 2 + l);
    Divides(b, 8, h * 2 + f, m * 2 + l);
    Divides(h * 2 + f, 2, h, f);
    Divides(b, 2, h * 8 + f * 4 + m, l);
    Divides(h * 8 + f * 4 + m, 4, h * 2 + f, m);
  }

  function Scrambled(row: seq<byte>): (r: seq<byte>)
    requires row != []
    ensures |r| == |row|
  {
    row[|row| - 1 := Flip(row[|row| - 1])]
  }

  lemma ScrambledTwice(row: seq<byte>)
    requires row != []
    ensures Scrambled(Scrambled(row)) == row
  {
    hide Flip;
    FlipTwice(row[|row| - 1]);
  }

  /** The bytes of the rows, one behind the other. */
  function FileOf(attrs: seq<Attribute>, rows: seq<seq<Value>>): seq<byte>
    requires ValidAttributes(attrs) && RowLength(attrs) > 0 && forall r | r in rows :: Matching(attrs, r)
  {
    if rows == [] then []
    else FileOf(attrs, rows[..|rows| - 1]) + Scrambled(RowOf(attrs, rows[|rows| - 1]))
  }

  lemma {:induction false} RowInFile(attrs: seq<Attribute>, rows: seq<seq<Value>>, k: nat)
    requires ValidAttributes(attrs) && RowLength(attrs) > 0 && forall r | r in rows :: Matching(attrs, r)
    ensures |FileOf(attrs, rows)| == |rows| * RowLength(attrs)
    ensures k < |rows| ==>
      var length := RowLength(attrs);
      0 <= k * length && k * length + length <= |FileOf(attrs, rows)| &&
      FileOf(attrs, rows)[k * length..k * length + length] == Scrambled(RowOf(attrs, rows[k]))
    decreases |rows|
  {
    hide RowOf, Matching, Scrambled, ValidAttributes, RowLength;
    var length := RowLength(attrs);
    if rows != [] {
      var n := |rows| - 1;
      var init := rows[..n];
      assert forall r | r in init :: r in rows;
      RowInFile(attrs, init, k);
      NextMultiple(n, length);
      var before, last := FileOf(attrs, init), Scrambled(RowOf(attrs, rows[n]));
      if k < n {
        FewerRows(k, n, length);
        SliceBefore(before, last, k * length, k * length + length);
      } else if k == n {
        SliceBehind(before, last);
      }
    }
  }

  lemma {:induction false} FewerRows(k: nat, n: nat, length: nat)
    requires k < n
    ensures k * length + length <= n * length
    decreases n
  {
    NextMultiple(n - 1, length);
    if k + 1 < n {
      FewerRows(k, n - 1, length);
    }
  }

  lemma RowAmount(n: nat, length: nat)
    requires length > 0
    ensures n * length / length == n
  {
    Divides(n * length, length, n, 0);
  }
}
