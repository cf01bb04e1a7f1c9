/** A relation whose tuples are rows of a file: inserting tuples and reading their values. */
module Relation {

  import opened Bytes
  import opened StorageRows

  datatype Status = OK | FINISHED | RELATIONAL_ERROR | LIMIT_ERROR

  class Relation {
    const attrs: seq<Attribute>
    var file: seq<byte>
    var cardinality: nat
    var nextRow: nat
    // The tuples that have been inserted.
    ghost var tuples: seq<seq<Value>>

    constructor (attrs: seq<Attribute>)
      requires ValidAttributes(attrs) && RowLength(attrs) > 0
      ensures Valid() && this.attrs == attrs && tuples == []
    {
      this.attrs := attrs;
      file, cardinality, nextRow, tuples := [], 0, 0, [];
    }

    ghost predicate Valid()
      reads this
    {
      && ValidAttributes(attrs) && RowLength(attrs) > 0 && (forall t | t in tuples :: Matching(attrs, t))
      && file == FileOf(attrs, tuples) && cardinality == nextRow == |tuples|
    }

    /** Writes the bytes of a value. */
    method ValueToPhy(record: array<byte>, pos: nat, a: Attribute, v: Value)
      requires a.Valid() && Accepts(a, v) && Readable(a, v) && pos + a.elementSize <= record.Length
      modifies record
      ensures record[..] == Overwrite(old(record[..]), pos, ToPhy(a, v))
    {
      hide Overwrite;
      if a.domain == STRING {
        CutString(record, pos, v.memory, a.elementSize);
      } else {
        ghost var was, done := record[..], [];
        OverwriteNothing(was, pos);
        if a.domain == LONG {
          PutByte(record, pos, v.cell / 0x100_0000 % 0x100, was, pos, done);
          done := done + [v.cell / 0x100_0000 % 0x100];
          PutByte(record, pos + 1, v.cell / 0x1_0000 % 0x100, was, pos, done);
          done := done + [v.cell / 0x1_0000 % 0x100];
        }
        var at := if a.domain == LONG then pos + 2 else pos;
        PutByte(record, at, v.cell / 0x100 % 0x100, was, pos, done);
        done := done + [v.cell / 0x100 % 0x100];
        PutByte(record, at + 1, v.cell % 0x100, was, pos, done);
        assert done + [v.cell % 0x100] == ToPhy(a, v);
      }
    }

    /** Copies as much of a string's memory as there is room for, and ends it with a zero. */
    method CutString(record: array<byte>, pos: nat, memory: seq<byte>, size: nat)
      requires 0 < size <= |memory| && pos + size <= record.Length
      modifies record
      ensures record[..] == Overwrite(old(record[..]), pos, memory[..size - 1] + [0])
    {
      ghost var was := record[..];
      Copy(record, pos, memory[..size]);
      record[pos + size - 1] := 0;
      assert record[..] == Overwrite(was, pos, memory[..size])[pos + size - 1 := 0];
    }

    /** Writes a value of a tuple, or zeros for an attribute that has been removed. */
    method PutField(record: array<byte>, pos: nat, a: Attribute, v: Value)
      requires a.Valid() && Accepts(a, v) && Readable(a, v) && pos + a.elementSize <= record.Length
      modifies record
      ensures record[..pos + a.elementSize] == old(record[..pos]) + Field(a, v)
    {
      hide ToPhy;
      ghost var was := record[..];
      if a.removed {
        Copy(record, pos, Zeros(a.elementSize));
      } else {
        ValueToPhy(record, pos, a, v);
      }
      OverwriteReads(was, pos, Field(a, v));
      assert record[..pos + a.elementSize] == record[..][..pos] + record[..][pos..pos + a.elementSize];
    }

    /** Inserts a tuple, unless a value is of a domain that its attribute does not take; then nothing
        is changed. */
    method Insert(values: seq<Value>) returns (r: Status)
      requires Valid() && |values| == |attrs|
      requires forall c | 0 <= c < |attrs| :: Readable(attrs[c], values[c]) && WellTyped(values[c])
      modifies this
      ensures Valid()
      ensures r == OK <==> Matching(attrs, values)
      ensures r == OK <==> forall c | 0 <= c < |attrs| ::
        match values[c]
        case Text(_) => attrs[c].domain == STRING
        case Number(d, _) => attrs[c].domain == d || (attrs[c].domain == LONG && d == INT)
      ensures r == OK ==> tuples == old(tuples) + [values]
      ensures r != OK ==> r == RELATIONAL_ERROR && tuples == old(tuples) && file == old(file)
    {
      hide Accepts, Readable, RowOf, Field, RowLength, FileOf;
      ghost var accepted := forall c | 0 <= c < |attrs| :: TakesDomain(attrs[c], values[c]);
      assert accepted <==> Matching(attrs, values) by {
        forall c | 0 <= c < |attrs|
          ensures TakesDomain(attrs[c], values[c]) <==> Accepts(attrs[c], values[c])
        {
          DomainsTell(attrs[c], values[c]);
        }
      }
      var record := new byte[RowLength(attrs)];
      var ptr := 0;
      NoFields();
      for c := 0 to |attrs|
        invariant ptr == RowLength(attrs[..c]) <= record.Length && Matching(attrs[..c], values[..c])
        invariant ValidAttributes(attrs[..c])
        invariant record[..ptr] == RowOf(attrs[..c], values[..c])
        invariant Valid() && tuples == old(tuples) && file == old(file)
      {
        OffsetsFit(attrs, c);
        DomainsTell(attrs[c], values[c]);
        if attrs[c].domain != values[c].DomainOf() && !(attrs[c].domain == LONG && values[c].DomainOf() == INT) {
          return RELATIONAL_ERROR;
        }
        OneMoreField(attrs, values, c);
        PutField(record, ptr, attrs[c], values[c]);
        ptr := ptr + attrs[c].elementSize;
      }
      assert attrs[..|attrs|] == attrs && values[..|values|] == values;
      assert record[..ptr] == record[..];
      OneMoreTuple(attrs, tuples, values);
      cardinality := cardinality + 1;
      nextRow := nextRow + 1;
      PutRow(record);
      tuples := tuples + [values];
      r := OK;
    }

    /** Writes a row behind the others, with its last byte changed while it is written. */
    method PutRow(row: array<byte>)
      requires row.Length > 0
      modifies this`file, row
      ensures file == old(file) + Scrambled(old(row[..])) && row[..] == old(row[..])
      ensures |file| == |old(file)| + row.Length && file[|file| - 1] == Flip(row[row.Length - 1])
      ensures file[..|file| - 1] == old(file) + row[..row.Length - 1]
    {
      hide Flip;
      ghost var was := row[..];
      FlipTwice(row[row.Length - 1]);
      row[row.Length - 1] := Flip(row[row.Length - 1]);
      assert row[..] == Scrambled(was);
      var pos, remaining: nat := 0, row.Length;
      while remaining > 0
        invariant pos + remaining == row.Length && row[..] == Scrambled(was)
        invariant file == old(file) + row[..pos]
        decreases remaining
      {
        var n :| 0 < n <= remaining;
        assert row[..pos + n] == row[..pos] + row[pos..pos + n];
        file := file + row[pos..pos + n];
        pos, remaining := pos + n, remaining - n;
      }
      assert row[..pos] == row[..];
      row[row.Length - 1] := Flip(row[row.Length - 1]);
      assert row[..] == was;
      assert file[..|file| - 1] == old(file) + was[..|was| - 1];
    }

    /** How many rows the file has. */
    method GetRowAmount() returns (n: nat)
      requires Valid()
      ensures n == |tuples| == cardinality
    {
      RowInFile(attrs, tuples, 0);
      RowAmount(|tuples|, RowLength(attrs));
      n := |file| / RowLength(attrs);
    }

    /** Reads row `k` of the file. */
    method GetRow(k: nat, row: array<byte>) returns (r: Status)
      requires Valid() && row.Length == RowLength(attrs)
      modifies row
      ensures r == if k < |tuples| then OK else FINISHED
      ensures k < |tuples| ==> Matching(attrs, tuples[k]) && row[..] == RowOf(attrs, tuples[k])
    {
      hide RowOf, RowLength, FileOf, Flip, ValidAttributes, Matching, Overwrite;
      var n := GetRowAmount();
      if k >= n {
        return FINISHED;
      }
      RowInFile(attrs, tuples, k);
      assert tuples[k] in tuples;
      ScrambledTwice(RowOf(attrs, tuples[k]));
      ghost var was := row[..];
      Copy(row, 0, file[k * row.Length..k * row.Length + row.Length]);
      OverwriteReads(was, 0, file[k * row.Length..k * row.Length + row.Length]);
      assert row[..] == row[..][0..row.Length];
      row[row.Length - 1] := Flip(row[row.Length - 1]);
      r := OK;
    }

    /** The value in a column of a row. */
    method GetValue(row: array<byte>, column: nat, ghost values: seq<Value>) returns (r: Status, v: Value)
      requires Valid() && row.Length == RowLength(attrs)
      requires Matching(attrs, values) && row[..] == RowOf(attrs, values)
      ensures r == if column < |attrs| then OK else LIMIT_ERROR
      ensures column < |attrs| ==> v == Recovered(attrs[column], values[column])
    {
      hide RowOf, RowLength, FileOf, Field, FromPhy, Recovered, Accepts, Readable;
      v := Number(INT, 0);
      if column >= |attrs| {
        return LIMIT_ERROR, v;
      }
      var offset := 0;
      NoFields();
      for c := 0 to column
        invariant offset == RowLength(attrs[..c])
      {
        OffsetsFit(attrs, c);
        offset := offset + attrs[c].elementSize;
      }
      FieldInRow(attrs, values, column);
      ValueComesBack(attrs[column], values[column]);
      var b := row[offset..offset + attrs[column].elementSize];
      assert b == row[..][offset..offset + attrs[column].elementSize];
      v := FromPhy(attrs[column], b);
      r := OK;
    }

    /** After any insertions, the value in a column of row `k` is that of the k-th tuple, in the width
        of its attribute. */
    method ReadBack(k: nat, column: nat) returns (r: Status, v: Value)
      requires Valid()
      ensures r == if k >= |tuples| then FINISHED else if column < |attrs| then OK else LIMIT_ERROR
      ensures r == OK ==> Matching(attrs, tuples[k]) && v == Recovered(attrs[column], tuples[k][column])
      // Numbers modulo the width of the attribute, strings without what there was no room for.
      ensures r == OK && !attrs[column].removed ==>
        match tuples[k][column]
        case Number(_, cell) =>
          v == Number(attrs[column].domain, if attrs[column].domain == INT then cell % 0x1_0000 else cell % 0x1_0000_0000)
        case Text(memory) =>
          var n := attrs[column].elementSize - 1; 0 <= n < |memory| && v == Text(memory[..n] + [0])
    {
      hide RowOf, RowLength, FileOf, Recovered, Accepts, Readable;
      var row := new byte[RowLength(attrs)];
      r := GetRow(k, row);
      v := Number(INT, 0);
      if r == OK {
        r, v := GetValue(row, column, tuples[k]);
        if r == OK {
          assert tuples[k] in tuples && attrs[column] in attrs;
          RecoveredIs(attrs[column], tuples[k][column]);
        }
      }
    }
  }

  /** Numbers are ints or longs. */
  predicate WellTyped(v: Value) { v.Number? ==> v.domain != STRING }

  lemma RecoveredIs(a: Attribute, v: Value)
    requires a.Valid() && Accepts(a, v) && Readable(a, v)
    ensures v.Number? ==> a.domain == INT || a.domain == LONG
    ensures v.Text? ==> 0 < a.elementSize <= |v.memory|
    ensures !a.removed ==>
      Recovered(a, v) ==
        match v
        case Number(_, cell) => Number(a.domain, if a.domain == INT then cell % 0x1_0000 else cell % 0x1_0000_0000)
        case Text(memory) => Text(memory[..a.elementSize - 1] + [0])
  {
  }

  lemma NoFields()
    ensures RowLength([]) == 0 && ValidAttributes([]) && Matching([], []) && RowOf([], []) == []
  {
  }

  /** The domain of the attribute takes the value. */
  predicate TakesDomain(a: Attribute, v: Value) {
    match v
    case Text(_) => a.domain == STRING
    case Number(d, _) => a.domain == d || (a.domain == LONG && d == INT)
  }

  /** What a stored value leaves in the record: a number with its high byte first, or the beginning of a
      string and a zero. */
  lemma BytesOfValue(was: seq<byte>, pos: nat, a: Attribute, v: Value)
    requires a.Valid() && Accepts(a, v) && Readable(a, v) && pos + a.elementSize <= |was|
    ensures var record := Overwrite(was, pos, ToPhy(a, v));
      match v
      case Number(_, n) =>
        if a.domain == INT then a.elementSize == 2 && record[pos] == n / 0x100 % 0x100 && record[pos + 1] == n % 0x100
        else
          && a.elementSize == 4 && record[pos] == n / 0x100_0000 % 0x100 && record[pos + 1] == n / 0x1_0000 % 0x100
          && record[pos + 2] == n / 0x100 % 0x100 && record[pos + 3] == n % 0x100
      case Text(memory) =>
        && (forall i | 0 <= i < a.elementSize - 1 :: record[pos + i] == memory[i])
        && record[pos + a.elementSize - 1] == 0
    ensures forall i | 0 <= i < |was| && !(pos <= i < pos + a.elementSize) ::
      Overwrite(was, pos, ToPhy(a, v))[i] == was[i]
  {
  }

  lemma DomainsTell(a: Attribute, v: Value)
    requires WellTyped(v)
    ensures Accepts(a, v) <==> a.domain == v.DomainOf() || (a.domain == LONG && v.DomainOf() == INT)
    ensures Accepts(a, v) <==> TakesDomain(a, v)
  {
  }

  lemma OneMoreField(attrs: seq<Attribute>, values: seq<Value>, c: nat)
    requires ValidAttributes(attrs) && |values| == |attrs| && c < |attrs|
    requires Matching(attrs[..c], values[..c]) && Accepts(attrs[c], values[c]) && Readable(attrs[c], values[c])
    ensures ValidAttributes(attrs[..c]) && ValidAttributes(attrs[..c + 1])
    ensures Matching(attrs[..c + 1], values[..c + 1]) && attrs[c].Valid()
    ensures RowOf(attrs[..c + 1], values[..c + 1]) == RowOf(attrs[..c], values[..c]) + Field(attrs[c], values[c])
  {
    hide Field, Accepts, Readable, Attribute.Valid;
    assert attrs[..c + 1][..c] == attrs[..c] && values[..c + 1][..c] == values[..c];
    assert attrs[..c + 1][c] == attrs[c] && values[..c + 1][c] == values[c];
    assert forall a | a in attrs[..c + 1] :: a in attrs;
    assert forall a | a in attrs[..c] :: a in attrs;
  }

  lemma OneMoreTuple(attrs: seq<Attribute>, tuples: seq<seq<Value>>, values: seq<Value>)
    requires ValidAttributes(attrs) && RowLength(attrs) > 0
    requires (forall t | t in tuples :: Matching(attrs, t)) && Matching(attrs, values)
    ensures forall t | t in tuples + [values] :: Matching(attrs, t)
    ensures FileOf(attrs, tuples + [values]) == FileOf(attrs, tuples) + Scrambled(RowOf(attrs, values))
  {
    hide RowOf, RowLength, Matching, Scrambled, ValidAttributes;
    assert (tuples + [values])[..|tuples|] == tuples;
  }
}
