// e1 * x + e2 * y in one pass over the bits of both exponents, with a table of small combinations.
// Only the table entries with an odd coordinate, and the two doubled bases, are ever filled in.

module Cascade {
  import opened Groups
  import opened Numbers

  // a * x + b * y.
  ghost function Combination<T(!new)>(g: Group<T>, x: T, y: T, a: int, b: int): T {
    g.Add(g.Times(a, x), g.Times(b, y))
  }

  lemma CombinationAdds<T(!new)>(g: Group<T>, x: T, y: T, a: int, b: int, c: int, d: int)
    requires g.Abelian()
    ensures g.Add(Combination(g, x, y, a, b), Combination(g, x, y, c, d)) == Combination(g, x, y, a + c, b + d)
  {
    g.Interchange(g.Times(a, x), g.Times(b, y), g.Times(c, x), g.Times(d, y));
    g.TimesAdds(a, c, x);
    g.TimesAdds(b, d, y);
  }

  lemma CombinationUnits<T(!new)>(g: Group<T>, x: T, y: T)
    requires g.Valid()
    ensures Combination(g, x, y, 1, 0) == x && Combination(g, x, y, 0, 1) == y
    ensures Combination(g, x, y, 0, 0) == g.identity
  {
    g.TimesOne(x);
    g.TimesOne(y);
    assert g.IdentityOn(x) && g.IdentityOn(y) && g.IdentityOn(g.identity);
  }

  // The table keeps p1 * x + p2 * y at index (p2 << w) + p1.

  lemma IndexBounds(p1: nat, p2: nat, w: nat)
    requires p1 < Pow2(w)
    ensures 0 <= Shl(p2, w) + p1
    ensures Shl(p2, w) + p1 < Pow2(w + w) <==> p2 < Pow2(w)
  {
    ShlOne(w);
    ShlShl(1, w, w);
    ShlOne(w + w);
    ShlMonotonic(0, p2, w);
    if p2 < Pow2(w) {
      ShlMonotonic(p2 + 1, Pow2(w), w);
      ShlAdds(p2, 1, w);
    } else {
      ShlMonotonic(Pow2(w), p2, w);
    }
  }

  lemma IndexIsInjective(p1: nat, p2: nat, q1: nat, q2: nat, w: nat)
    requires p1 < Pow2(w) && q1 < Pow2(w) && Shl(p2, w) + p1 == Shl(q2, w) + q1
    ensures p1 == q1 && p2 == q2
  {
    IndexBounds(p1, p2, w);
    SplitIsUnique(Shl(p2, w) + p1, w, p2, p1);
    SplitIsUnique(Shl(p2, w) + p1, w, q2, q1);
  }

  // The table entry for (p1, p2) holds what it should.
  ghost predicate Holds<T(!new)>(g: Group<T>, x: T, y: T, w: nat, table: seq<T>, p1: nat, p2: nat) {
    && 0 <= Shl(p2, w) + p1 < |table|
    && table[Shl(p2, w) + p1] == Combination(g, x, y, p1, p2)
  }

  // Every entry that is right in one table is right in the other.
  ghost predicate Keeps<T(!new)>(g: Group<T>, x: T, y: T, w: nat, before: seq<T>, after: seq<T>) {
    && |after| == |before| == Pow2(w + w)
    && forall q1: nat, q2: nat ::
         q1 < Pow2(w) && q2 < Pow2(w) && Holds(g, x, y, w, before, q1, q2) ==> Holds(g, x, y, w, after, q1, q2)
  }

  // Filling in one entry with its value.
  lemma SetEntry<T(!new)>(g: Group<T>, x: T, y: T, w: nat, table: seq<T>, i: int, v: T, p1: nat, p2: nat)
    requires p1 < Pow2(w) && p2 < Pow2(w) && |table| == Pow2(w + w)
    requires i == Shl(p2, w) + p1 && v == Combination(g, x, y, p1, p2)
    ensures 0 <= i < |table|
    ensures Holds(g, x, y, w, table[i := v], p1, p2)
    ensures Keeps(g, x, y, w, table, table[i := v])
  {
    IndexBounds(p1, p2, w);
    forall q1: nat, q2: nat | q1 < Pow2(w) && q2 < Pow2(w) && Holds(g, x, y, w, table, q1, q2)
      ensures Holds(g, x, y, w, table[i := v], q1, q2)
    {
      if Shl(q2, w) + q1 == i {
        IndexIsInjective(p1, p2, q1, q2, w);
      }
    }
  }

  // The entries (p, q) with p odd and below pEnd, for every q of the table.
  ghost predicate OddColumns<T(!new)>(g: Group<T>, x: T, y: T, w: nat, table: seq<T>, pEnd: nat) {
    forall p: nat, q: nat :: p % 2 == 1 && p < pEnd && p < Pow2(w) && q < Pow2(w) ==> Holds(g, x, y, w, table, p, q)
  }

  // The entries (p, q) with q odd and below qEnd, for every p of the table.
  ghost predicate OddRows<T(!new)>(g: Group<T>, x: T, y: T, w: nat, table: seq<T>, qEnd: nat) {
    forall p: nat, q: nat :: q % 2 == 1 && q < qEnd && p < Pow2(w) && q < Pow2(w) ==> Holds(g, x, y, w, table, p, q)
  }

  ghost predicate FirstRow<T(!new)>(g: Group<T>, x: T, y: T, w: nat, table: seq<T>, pEnd: nat) {
    forall p: nat :: p % 2 == 1 && p < pEnd && p < Pow2(w) && 0 < Pow2(w) ==> Holds(g, x, y, w, table, p, 0)
  }

  ghost predicate FirstColumn<T(!new)>(g: Group<T>, x: T, y: T, w: nat, table: seq<T>, qEnd: nat) {
    forall q: nat :: q % 2 == 1 && q < qEnd && 0 < Pow2(w) && q < Pow2(w) ==> Holds(g, x, y, w, table, 0, q)
  }

  // The column of p up to row qEnd.
  ghost predicate Column<T(!new)>(g: Group<T>, x: T, y: T, w: nat, table: seq<T>, p: nat, qEnd: nat) {
    forall q: nat :: q < qEnd && p < Pow2(w) && q < Pow2(w) ==> Holds(g, x, y, w, table, p, q)
  }

  // The even entries of row q up to column pEnd.
  ghost predicate EvenRow<T(!new)>(g: Group<T>, x: T, y: T, w: nat, table: seq<T>, q: nat, pEnd: nat) {
    forall p: nat :: p % 2 == 0 && p < pEnd && p < Pow2(w) && q < Pow2(w) ==> Holds(g, x, y, w, table, p, q)
  }

  lemma NextRow(p: nat, q: nat, w: nat)
    ensures Shl(q, w) + p + Pow2(w) == Shl(q + 1, w) + p
  {
    ShlAdds(q, 1, w);
    ShlOne(w);
  }

  lemma NextOddRow(p: nat, q: nat, w: nat)
    ensures Shl(q, w) + p + 2 * Pow2(w) == Shl(q + 2, w) + p
  {
    NextRow(p, q, w);
    NextRow(p, q + 1, w);
  }

  lemma BottomRow(p: nat, w: nat)
    ensures Shl(0, w) + p == p
  {
    ShlMonotonic(0, 0, w);
  }

  // Odd multiples of x.
  method FillFirstRow<T(!new)>(g: Group<T>, ghost x: T, ghost y: T, w: nat, tableIn: seq<T>) returns (table: seq<T>)
    requires g.Abelian() && w >= 2 && |tableIn| == Pow2(w + w)
    requires Holds(g, x, y, w, tableIn, 1, 0) && Holds(g, x, y, w, tableIn, 2, 0)
    ensures Keeps(g, x, y, w, tableIn, table)
    ensures FirstRow(g, x, y, w, table, Pow2(w))
  {
    table := tableIn;
    var tableSize := Pow2(w);
    var i := 3;
    while i < tableSize
      invariant i % 2 == 1 && 3 <= i
      invariant Keeps(g, x, y, w, tableIn, table)
      invariant FirstRow(g, x, y, w, table, i)
      invariant Holds(g, x, y, w, table, 2, 0)
    {
      assert i - 2 < Pow2(w) && 0 < Pow2(w) && 2 < Pow2(w) && 0 < Pow2(w);
      assert Holds(g, x, y, w, table, i - 2, 0);
      BottomRow(i - 2, w);
      BottomRow(2, w);
      BottomRow(i, w);
      CombinationAdds(g, x, y, i - 2, 0, 2, 0);
      SetEntry(g, x, y, w, table, i, g.Add(table[i - 2], table[2]), i, 0);
      table := table[i := g.Add(table[i - 2], table[2])];
      i := i + 2;
    }
  }

  // y added to the entry below.
  lemma {:induction false} EntryAbove<T(!new)>(g: Group<T>, x: T, y: T, w: nat, table: seq<T>, p: nat, q: nat)
    requires g.Abelian() && q >= 1 && Holds(g, x, y, w, table, p, q - 1)
    ensures 0 <= Shl(q, w) + p - Pow2(w) < |table|
    ensures g.Add(table[Shl(q, w) + p - Pow2(w)], y) == Combination(g, x, y, p, q)
  {
    NextRow(p, q - 1, w);
    CombinationUnits(g, x, y);
    CombinationAdds(g, x, y, p, q - 1, 0, 1);
  }

  // x added to the entry to the left.
  lemma EntryRight<T(!new)>(g: Group<T>, x: T, y: T, w: nat, table: seq<T>, p: nat, q: nat)
    requires g.Abelian() && p >= 1 && Holds(g, x, y, w, table, p - 1, q)
    ensures 0 <= Shl(q, w) + p - 1 < |table|
    ensures g.Add(table[Shl(q, w) + p - 1], x) == Combination(g, x, y, p, q)
  {
    CombinationUnits(g, x, y);
    CombinationAdds(g, x, y, p - 1, q, 1, 0);
  }

  lemma StartColumn<T(!new)>(g: Group<T>, x: T, y: T, w: nat, table: seq<T>, i: nat)
    requires Holds(g, x, y, w, table, i, 0)
    ensures i + Pow2(w) == Shl(1, w) + i
    ensures Column(g, x, y, w, table, i, 1)
  {
    BottomRow(i, w);
    NextRow(i, 0, w);
  }

  // The entries above one multiple of x: y is added row by row.
  method FillColumn<T(!new)>(g: Group<T>, ghost x: T, y: T, w: nat, tableIn: seq<T>, i: nat) returns (table: seq<T>)
    requires g.Abelian() && w >= 1 && |tableIn| == Pow2(w + w)
    requires i < Pow2(w) && 0 < Pow2(w) && Holds(g, x, y, w, tableIn, i, 0)
    ensures Keeps(g, x, y, w, tableIn, table)
    ensures Column(g, x, y, w, table, i, Pow2(w))
  {
    table := tableIn;
    var tableSize := Pow2(w);
    var j := i + tableSize;
    ghost var q := 1;
    StartColumn(g, x, y, w, table, i);
    while j < |table|
      invariant j == Shl(q, w) + i && q >= 1
      invariant Keeps(g, x, y, w, tableIn, table)
      invariant Column(g, x, y, w, table, i, q)
      decreases |table| - j
    {
      IndexBounds(i, q, w);
      NextRow(i, q, w);
      assert i < Pow2(w) && q - 1 < Pow2(w);
      EntryAbove(g, x, y, w, table, i, q);
      SetEntry(g, x, y, w, table, j, g.Add(table[j - tableSize], y), i, q);
      table := table[j := g.Add(table[j - tableSize], y)];
      j := j + tableSize;
      q := q + 1;
    }
    IndexBounds(i, q, w);
  }

  lemma KeepsAgain<T(!new)>(g: Group<T>, x: T, y: T, w: nat, a: seq<T>, b: seq<T>, c: seq<T>)
    requires Keeps(g, x, y, w, a, b) && Keeps(g, x, y, w, b, c)
    ensures Keeps(g, x, y, w, a, c)
  {
  }

  // One more odd column.
  lemma ColumnAdded<T(!new)>(g: Group<T>, x: T, y: T, w: nat, before: seq<T>, after: seq<T>, i: nat)
    requires i % 2 == 1 && OddColumns(g, x, y, w, before, i)
    requires Keeps(g, x, y, w, before, after) && Column(g, x, y, w, after, i, Pow2(w))
    ensures OddColumns(g, x, y, w, after, i + 2) && (i + 2) % 2 == 1
  {
    forall p: nat, q: nat | p % 2 == 1 && p < i + 2 && p < Pow2(w) && q < Pow2(w) ensures Holds(g, x, y, w, after, p, q) {
      if p < i {
        assert Holds(g, x, y, w, before, p, q);
      } else {
        assert p == i;
      }
    }
  }

  // All columns that belong to odd multiples of x.
  method FillOddColumns<T(!new)>(g: Group<T>, ghost x: T, y: T, w: nat, tableIn: seq<T>) returns (table: seq<T>)
    requires g.Abelian() && w >= 2 && |tableIn| == Pow2(w + w)
    requires FirstRow(g, x, y, w, tableIn, Pow2(w))
    ensures Keeps(g, x, y, w, tableIn, table)
    ensures OddColumns(g, x, y, w, table, Pow2(w))
  {
    table := tableIn;
    var tableSize := Pow2(w);
    var i := 1;
    while i < tableSize
      invariant i % 2 == 1
      invariant Keeps(g, x, y, w, tableIn, table)
      invariant OddColumns(g, x, y, w, table, i)
    {
      assert i < Pow2(w) && 0 < Pow2(w);
      var more := FillColumn(g, x, y, w, table, i);
      ColumnAdded(g, x, y, w, table, more, i);
      KeepsAgain(g, x, y, w, tableIn, table, more);
      table, i := more, i + 2;
    }
  }

  // One more odd entry of the first column.
  lemma ExtendFirstColumn<T(!new)>(g: Group<T>, x: T, y: T, w: nat, tableIn: seq<T>, table: seq<T>, q: nat)
    requires g.Abelian() && q % 2 == 1 && q >= 3 && q < Pow2(w) && w >= 2
    requires Holds(g, x, y, w, tableIn, 0, 2)
    requires Keeps(g, x, y, w, tableIn, table) && FirstColumn(g, x, y, w, table, q)
    ensures 0 <= Shl(q - 2, w) < |table| && 0 <= Shl(2, w) < |table| && 0 <= Shl(q, w) < |table|
    ensures var after := table[Shl(q, w) := g.Add(table[Shl(q - 2, w)], table[Shl(2, w)])];
      Keeps(g, x, y, w, tableIn, after) && FirstColumn(g, x, y, w, after, q + 2)
  {
    assert Holds(g, x, y, w, table, 0, q - 2) && Holds(g, x, y, w, table, 0, 2);
    CombinationAdds(g, x, y, 0, q - 2, 0, 2);
    SetEntry(g, x, y, w, table, Shl(q, w), g.Add(table[Shl(q - 2, w)], table[Shl(2, w)]), 0, q);
  }

  // Odd multiples of y.
  method FillFirstColumn<T(!new)>(g: Group<T>, ghost x: T, ghost y: T, w: nat, tableIn: seq<T>) returns (table: seq<T>)
    requires g.Abelian() && w >= 2 && |tableIn| == Pow2(w + w)
    requires Holds(g, x, y, w, tableIn, 0, 1) && Holds(g, x, y, w, tableIn, 0, 2)
    ensures Keeps(g, x, y, w, tableIn, table)
    ensures FirstColumn(g, x, y, w, table, Pow2(w))
  {
    table := tableIn;
    var tableSize := Pow2(w);
    assert 0 < Pow2(w) && 2 < Pow2(w);
    BottomRow(0, w);
    NextRow(0, 0, w);
    NextOddRow(0, 0, w);
    NextOddRow(0, 1, w);
    var i := 3 * tableSize;
    ghost var q := 3;
    while i < |table|
      invariant i == Shl(q, w) + 0 && q % 2 == 1 && q >= 3
      invariant Keeps(g, x, y, w, tableIn, table)
      invariant FirstColumn(g, x, y, w, table, q)
      decreases |table| - i
    {
      IndexBounds(0, q, w);
      NextOddRow(0, q - 2, w);
      NextOddRow(0, q, w);
      ExtendFirstColumn(g, x, y, w, tableIn, table, q);
      table := table[i := g.Add(table[i - 2 * tableSize], table[2 * tableSize])];
      i := i + 2 * tableSize;
      q := q + 2;
    }
    IndexBounds(0, q, w);
  }

  lemma StartRow<T(!new)>(g: Group<T>, x: T, y: T, w: nat, table: seq<T>, q: nat)
    requires Holds(g, x, y, w, table, 0, q)
    ensures EvenRow(g, x, y, w, table, q, 2)
  {
  }

  // One more even entry of a row.
  lemma ExtendRow<T(!new)>(g: Group<T>, x: T, y: T, w: nat, tableIn: seq<T>, table: seq<T>, p: nat, q: nat)
    requires g.Abelian() && p % 2 == 0 && p >= 2 && p < Pow2(w) && q < Pow2(w)
    requires OddColumns(g, x, y, w, tableIn, Pow2(w))
    requires Keeps(g, x, y, w, tableIn, table) && EvenRow(g, x, y, w, table, q, p)
    ensures var j := Shl(q, w) + p;
      && 1 <= j < |table|
      && var after := table[j := g.Add(table[j - 1], x)];
         Keeps(g, x, y, w, tableIn, after) && EvenRow(g, x, y, w, after, q, p + 2)
  {
    LeftHolds(g, x, y, w, tableIn, table, p, q);
    EntryRight(g, x, y, w, table, p, q);
    var j := Shl(q, w) + p;
    SetEntry(g, x, y, w, table, j, g.Add(table[j - 1], x), p, q);
    var after := table[j := g.Add(table[j - 1], x)];
    KeepsAgain(g, x, y, w, tableIn, table, after);
    RowGrows(g, x, y, w, table, after, p, q);
  }

  lemma LeftHolds<T(!new)>(g: Group<T>, x: T, y: T, w: nat, tableIn: seq<T>, table: seq<T>, p: nat, q: nat)
    requires p % 2 == 0 && 2 <= p < Pow2(w) && q < Pow2(w)
    requires OddColumns(g, x, y, w, tableIn, Pow2(w)) && Keeps(g, x, y, w, tableIn, table)
    ensures Holds(g, x, y, w, table, p - 1, q)
  {
    assert (p - 1) % 2 == 1;
    assert Holds(g, x, y, w, tableIn, p - 1, q);
  }

  lemma RowGrows<T(!new)>(g: Group<T>, x: T, y: T, w: nat, table: seq<T>, after: seq<T>, p: nat, q: nat)
    requires p % 2 == 0 && q < Pow2(w) && Keeps(g, x, y, w, table, after)
    requires EvenRow(g, x, y, w, table, q, p) && Holds(g, x, y, w, after, p, q)
    ensures EvenRow(g, x, y, w, after, q, p + 2)
  {
    forall r: nat | r % 2 == 0 && r < p + 2 && r < Pow2(w) ensures Holds(g, x, y, w, after, r, q) {
      if r < p {
        assert Holds(g, x, y, w, table, r, q);
      } else {
        assert r == p;
      }
    }
  }

  // The even multiples of x in one row: x is added to the entry before.
  method FillRow<T(!new)>(g: Group<T>, x: T, ghost y: T, w: nat, tableIn: seq<T>, i: nat, ghost q: nat)
    returns (table: seq<T>)
    requires g.Abelian() && w >= 2 && |tableIn| == Pow2(w + w)
    requires i == Shl(q, w) + 0 && q < Pow2(w)
    requires OddColumns(g, x, y, w, tableIn, Pow2(w)) && Holds(g, x, y, w, tableIn, 0, q)
    ensures Keeps(g, x, y, w, tableIn, table)
    ensures EvenRow(g, x, y, w, table, q, Pow2(w))
  {
    table := tableIn;
    var tableSize := Pow2(w);
    var j := i + 2;
    ghost var p := 2;
    StartRow(g, x, y, w, table, q);
    while j < i + tableSize
      invariant p % 2 == 0 && p >= 2 && j == i + p
      invariant Keeps(g, x, y, w, tableIn, table)
      invariant EvenRow(g, x, y, w, table, q, p)
    {
      ExtendRow(g, x, y, w, tableIn, table, p, q);
      table := table[j := g.Add(table[j - 1], x)];
      j := j + 2;
      p := p + 2;
    }
  }

  // One more odd row: its odd entries are there already.
  lemma RowAdded<T(!new)>(g: Group<T>, x: T, y: T, w: nat, before: seq<T>, after: seq<T>, i: nat)
    requires i % 2 == 1 && OddRows(g, x, y, w, before, i) && OddColumns(g, x, y, w, before, Pow2(w))
    requires Keeps(g, x, y, w, before, after) && EvenRow(g, x, y, w, after, i, Pow2(w))
    ensures OddRows(g, x, y, w, after, i + 2) && (i + 2) % 2 == 1
  {
    forall p: nat, q: nat | q % 2 == 1 && q < i + 2 && p < Pow2(w) && q < Pow2(w) ensures Holds(g, x, y, w, after, p, q) {
      if q < i {
        assert Holds(g, x, y, w, before, p, q);
      } else if p % 2 == 1 {
        assert Holds(g, x, y, w, before, p, q);
      } else {
        assert q == i;
      }
    }
  }

  lemma KeepsColumns<T(!new)>(g: Group<T>, x: T, y: T, w: nat, before: seq<T>, after: seq<T>, pEnd: nat)
    requires OddColumns(g, x, y, w, before, pEnd) && Keeps(g, x, y, w, before, after)
    ensures OddColumns(g, x, y, w, after, pEnd)
  {
  }

  // All rows that belong to odd multiples of y.
  method FillOddRows<T(!new)>(g: Group<T>, x: T, ghost y: T, w: nat, tableIn: seq<T>) returns (table: seq<T>)
    requires g.Abelian() && w >= 2 && |tableIn| == Pow2(w + w)
    requires OddColumns(g, x, y, w, tableIn, Pow2(w)) && FirstColumn(g, x, y, w, tableIn, Pow2(w))
    ensures Keeps(g, x, y, w, tableIn, table)
    ensures OddRows(g, x, y, w, table, Pow2(w))
  {
    table := tableIn;
    var tableSize := Pow2(w);
    BottomRow(0, w);
    NextRow(0, 0, w);
    var i := tableSize;
    ghost var q := 1;
    while i < |table|
      invariant i == Shl(q, w) + 0 && q % 2 == 1
      invariant Keeps(g, x, y, w, tableIn, table)
      invariant OddRows(g, x, y, w, table, q)
      decreases |table| - i
    {
      IndexBounds(0, q, w);
      NextOddRow(0, q, w);
      assert 0 < Pow2(w) && q < Pow2(w);
      KeepsColumns(g, x, y, w, tableIn, table, Pow2(w));
      var more := FillRow(g, x, y, w, table, i, q);
      RowAdded(g, x, y, w, table, more, q);
      KeepsAgain(g, x, y, w, tableIn, table, more);
      table := more;
      i := i + 2 * tableSize;
      q := q + 2;
    }
    IndexBounds(0, q, w);
  }

  // With one-bit windows the three units are the whole table.
  lemma SmallTable<T(!new)>(g: Group<T>, x: T, y: T, w: nat, table: seq<T>)
    requires g.Abelian() && w == 1 && |table| == 4
    requires table[1] == x && table[2] == y && table[3] == g.Add(x, y)
    ensures OddColumns(g, x, y, w, table, Pow2(w)) && OddRows(g, x, y, w, table, Pow2(w))
  {
    CombinationUnits(g, x, y);
    CombinationAdds(g, x, y, 1, 0, 0, 1);
    forall p: nat, q: nat | (p % 2 == 1 || q % 2 == 1) && p < Pow2(w) && q < Pow2(w)
      ensures Holds(g, x, y, w, table, p, q)
    {
      SmallIndex(p, q);
    }
  }

  lemma SmallIndex(p: nat, q: nat)
    requires p < Pow2(1) && q < Pow2(1)
    ensures p < 2 && q < 2 && Shl(q, 1) + p == 2 * q + p
  {
    assert Pow2(1) == 2 * Pow2(0);
    assert Shl(q, 1) == 2 * Shl(q, 0);
  }

  // The two bases and their doubles, for windows of at least two bits.
  method FillUnits<T(!new)>(g: Group<T>, x: T, y: T, w: nat, tableIn: seq<T>) returns (table: seq<T>)
    requires g.Abelian() && w >= 2 && |tableIn| == Pow2(w + w)
    requires Holds(g, x, y, w, tableIn, 1, 0) && Holds(g, x, y, w, tableIn, 0, 1)
    ensures Keeps(g, x, y, w, tableIn, table)
    ensures Holds(g, x, y, w, table, 2, 0) && Holds(g, x, y, w, table, 0, 2)
  {
    var tableSize := Pow2(w);
    CombinationUnits(g, x, y);
    CombinationAdds(g, x, y, 1, 0, 1, 0);
    CombinationAdds(g, x, y, 0, 1, 0, 1);
    BottomRow(2, w);
    BottomRow(0, w);
    NextOddRow(0, 0, w);
    assert 2 < Pow2(w) && 0 < Pow2(w) && 0 < Pow2(w) && 2 < Pow2(w);
    SetEntry(g, x, y, w, tableIn, 2, g.Double(x), 2, 0);
    table := tableIn[2 := g.Double(x)];
    SetEntry(g, x, y, w, table, 2 * tableSize, g.Double(y), 0, 2);
    table := table[2 * tableSize := g.Double(y)];
  }

  // The table of a window size: every entry with an odd coordinate is right. The other entries keep
  // whatever value elements are created with.
  method FillTable<T(!new)>(g: Group<T>, x: T, y: T, w: nat, blank: T) returns (table: seq<T>)
    requires g.Abelian() && w >= 1
    ensures |table| == Pow2(w + w)
    ensures OddColumns(g, x, y, w, table, Pow2(w)) && OddRows(g, x, y, w, table, Pow2(w))
  {
    var tableSize := Pow2(w);
    table := seq(Pow2(w + w), _ => blank);
    TableIsLargeEnough(w);
    table := table[1 := x];
    table := table[tableSize := y];
    if w == 1 {
      table := table[3 := g.Add(x, y)];
      SmallTable(g, x, y, w, table);
    } else {
      UnitsHold(g, x, y, w, table);
      table := FillUnits(g, x, y, w, table);
      table := FillFirstRow(g, x, y, w, table);
      table := FillOddColumns(g, x, y, w, table);
      table := FillFirstColumn(g, x, y, w, table);
      table := FillOddRows(g, x, y, w, table);
    }
  }

  lemma TableIsLargeEnough(w: nat)
    requires w >= 1
    ensures 2 <= Pow2(w) < Pow2(w + w) && Pow2(w + w) >= 4
    ensures w == 1 ==> Pow2(w) == 2 && Pow2(w + w) == 4
  {
    Pow2Monotonic(1, w);
    Pow2Monotonic(2, w + w);
    Pow2Monotonic(w, w + w);
    assert Pow2(1) == 2 * Pow2(0) && Pow2(2) == 2 * Pow2(1);
  }

  lemma UnitsHold<T(!new)>(g: Group<T>, x: T, y: T, w: nat, table: seq<T>)
    requires g.Abelian() && w >= 2 && |table| == Pow2(w + w)
    requires Pow2(w) < |table| && table[1] == x && table[Pow2(w)] == y
    ensures Holds(g, x, y, w, table, 1, 0) && Holds(g, x, y, w, table, 0, 1)
  {
    CombinationUnits(g, x, y);
    BottomRow(1, w);
    BottomRow(0, w);
    NextRow(0, 0, w);
  }

  // The window size for a number of exponent bits.
  function WindowBits(expLen: nat): nat {
    if expLen <= 46 then 1 else if expLen <= 260 then 2 else 3
  }

  // The longest exponents for the window sizes 1 and 2.
  lemma WindowBitsAre(expLen: nat, k: nat)
    requires k < 2
    ensures 1 <= WindowBits(expLen) <= 3 && (WindowBits(expLen) <= k + 1 <==> expLen <= [46, 260][k])
  {
  }

  // Common factors of two move from the two digits to the doublings after the addition. There are
  // always enough doublings before it to take them from.
  method HalveTogether(digit1: nat, digit2: nat, squares: nat)
    returns (power1: nat, power2: nat, squaresBefore: nat, squaresAfter: nat)
    requires digit1 < Pow2(squares + 1) && digit2 < Pow2(squares + 1)
    ensures digit1 == Shl(power1, squaresAfter) && digit2 == Shl(power2, squaresAfter)
    ensures squaresBefore + squaresAfter == squares
    ensures power1 <= digit1 && power2 <= digit2
    ensures power1 > 0 || power2 > 0 ==> power1 % 2 == 1 || power2 % 2 == 1
    ensures digit1 > 0 || digit2 > 0 ==> power1 > 0 || power2 > 0
  {
    power1, power2, squaresBefore, squaresAfter := digit1, digit2, squares, 0;
    while (power1 != 0 || power2 != 0) && power1 % 2 == 0 && power2 % 2 == 0
      invariant digit1 == Shl(power1, squaresAfter) && digit2 == Shl(power2, squaresAfter)
      invariant squaresBefore + squaresAfter == squares
      invariant power1 <= digit1 && power2 <= digit2
      invariant power1 < Pow2(squaresBefore + 1) && power2 < Pow2(squaresBefore + 1)
      invariant digit1 > 0 || digit2 > 0 ==> power1 > 0 || power2 > 0
      decreases squaresBefore
    {
      TwoBits(power1, power2, squaresBefore);
      HalfShifts(power1, squaresAfter);
      HalfShifts(power2, squaresAfter);
      power1 := power1 / 2;
      power2 := power2 / 2;
      squaresBefore := squaresBefore - 1;
      squaresAfter := squaresAfter + 1;
    }
  }

  lemma TwoBits(power1: nat, power2: nat, squares: nat)
    requires power1 % 2 == 0 && power2 % 2 == 0 && (power1 > 0 || power2 > 0)
    requires power1 < Pow2(squares + 1) && power2 < Pow2(squares + 1)
    ensures squares >= 1 && power1 / 2 < Pow2(squares) && power2 / 2 < Pow2(squares)
  {
    assert Pow2(squares + 1) == 2 * Pow2(squares);
  }

  lemma HalfShifts(n: nat, k: nat)
    requires n % 2 == 0
    ensures Shl(n, k) == Shl(n / 2, k + 1)
  {
    ShlShl(n / 2, 1, k);
    OneShift(n / 2);
  }

  lemma OneShift(n: int)
    ensures Shl(n, 1) == 2 * n
  {
    assert Shl(n, 1) == 2 * Shl(n, 0);
  }

  method DoubleRepeatedly<T(!new)>(g: Group<T>, ghost x: T, ghost y: T, r: T, count: nat, ghost a: int, ghost b: int)
    returns (result: T)
    requires g.Abelian() && r == Combination(g, x, y, a, b)
    ensures result == Combination(g, x, y, Shl(a, count), Shl(b, count))
  {
    result := r;
    var left := count;
    while left > 0
      invariant 0 <= left <= count
      invariant result == Combination(g, x, y, Shl(a, count - left), Shl(b, count - left))
    {
      CombinationAdds(g, x, y, Shl(a, count - left), Shl(b, count - left), Shl(a, count - left), Shl(b, count - left));
      result := g.Double(result);
      left := left - 1;
    }
  }

  // The doublings before the table entry is added, and the entry, unless both digits are zero.
  method AddPowers<T(!new)>(g: Group<T>, ghost x: T, ghost y: T, w: nat, table: seq<T>, r: T, power1: nat, power2: nat,
                            squaresBefore: nat, ghost a: int, ghost b: int) returns (result: T)
    requires g.Abelian() && |table| == Pow2(w + w)
    requires OddColumns(g, x, y, w, table, Pow2(w)) && OddRows(g, x, y, w, table, Pow2(w))
    requires power1 < Pow2(w) && power2 < Pow2(w) && r == Combination(g, x, y, a, b)
    requires power1 > 0 || power2 > 0 ==> power1 % 2 == 1 || power2 % 2 == 1
    ensures result == Combination(g, x, y, Shl(a, squaresBefore) + power1, Shl(b, squaresBefore) + power2)
  {
    result := DoubleRepeatedly(g, x, y, r, squaresBefore, a, b);
    if power1 != 0 || power2 != 0 {
      TableLookup(g, x, y, w, table, power1, power2);
      CombinationAdds(g, x, y, Shl(a, squaresBefore), Shl(b, squaresBefore), power1, power2);
      result := g.Add(result, table[Shl(power2, w) + power1]);
    }
  }

  // A pair of digits is worked into the result: the bits read since the last time are doublings, and
  // the digits themselves come from the table.
  method AddDigits<T(!new)>(g: Group<T>, ghost x: T, ghost y: T, w: nat, table: seq<T>, r: T, firstTime: bool,
                            digit1: nat, digit2: nat, squares: nat, ghost a: int, ghost b: int)
    returns (result: T)
    requires g.Abelian() && |table| == Pow2(w + w)
    requires OddColumns(g, x, y, w, table, Pow2(w)) && OddRows(g, x, y, w, table, Pow2(w))
    requires digit1 < Pow2(w) && digit2 < Pow2(w)
    requires digit1 < Pow2(squares + 1) && digit2 < Pow2(squares + 1)
    requires firstTime ==> digit1 > 0 || digit2 > 0
    requires !firstTime ==> r == Combination(g, x, y, a, b)
    ensures firstTime ==> result == Combination(g, x, y, digit1, digit2)
    ensures !firstTime ==> result == Combination(g, x, y, Shl(a, squares) + digit1, Shl(b, squares) + digit2)
  {
    var power1, power2, squaresBefore, squaresAfter := HalveTogether(digit1, digit2, squares);
    if firstTime {
      TableLookup(g, x, y, w, table, power1, power2);
      result := table[Shl(power2, w) + power1];
      result := DoubleRepeatedly(g, x, y, result, squaresAfter, power1, power2);
    } else {
      result := AddPowers(g, x, y, w, table, r, power1, power2, squaresBefore, a, b);
      result := DoubleRepeatedly(g, x, y, result, squaresAfter, Shl(a, squaresBefore) + power1, Shl(b, squaresBefore) + power2);
      ShiftSum(a, power1, squaresBefore, squaresAfter);
      ShiftSum(b, power2, squaresBefore, squaresAfter);
    }
  }

  lemma ShiftSum(a: int, p: int, before: nat, after: nat)
    ensures Shl(Shl(a, before) + p, after) == Shl(a, before + after) + Shl(p, after)
  {
    ShlAdds(Shl(a, before), p, after);
    ShlShl(a, before, after);
  }

  lemma TableLookup<T(!new)>(g: Group<T>, x: T, y: T, w: nat, table: seq<T>, p: nat, q: nat)
    requires OddColumns(g, x, y, w, table, Pow2(w)) && OddRows(g, x, y, w, table, Pow2(w))
    requires p < Pow2(w) && q < Pow2(w) && (p % 2 == 1 || q % 2 == 1)
    ensures 0 <= Shl(q, w) + p < |table|
    ensures table[Shl(q, w) + p] == Combination(g, x, y, p, q)
  {
    assert p < Pow2(w) && q < Pow2(w);
    assert Holds(g, x, y, w, table, p, q);
  }

  // The digit holds the bits of e from position i up to where the last digit was taken, or up to the
  // top if none was.
  ghost predicate ReadDownTo(e: nat, i: nat, firstTime: bool, prevPosition: nat, expLen: nat, digit: nat) {
    if firstTime then
      i <= expLen && digit == Shr(e, i) && digit < Pow2(expLen - i)
    else
      i <= prevPosition && Shr(e, i) == Shl(Shr(e, prevPosition), prevPosition - i) + digit
      && digit < Pow2(prevPosition - i)
  }

  lemma ReadBit(e: nat, i: nat, firstTime: bool, prevPosition: nat, expLen: nat, digit: nat)
    requires ReadDownTo(e, i + 1, firstTime, prevPosition, expLen, digit)
    ensures ReadDownTo(e, i, firstTime, prevPosition, expLen, 2 * digit + (if GetBit(e, i) then 1 else 0))
  {
    assert Shr(e, i + 1) == Shr(e, i) / 2;
  }

  // Any digit read fits the doublings that are due.
  lemma DigitFits(e: nat, i: nat, firstTime: bool, prevPosition: nat, expLen: nat, digit: nat)
    requires ReadDownTo(e, i, firstTime, prevPosition, expLen, digit)
    requires firstTime ==> prevPosition == expLen - 1 && i < expLen
    ensures i <= prevPosition && digit < Pow2(prevPosition - i + 1)
  {
  }

  lemma TopBit(e1: nat, e2: nat, expLen: nat)
    requires expLen > 0 && (expLen == BitCount(e1) || expLen == BitCount(e2))
    ensures GetBit(e1, expLen - 1) || GetBit(e2, expLen - 1)
  {
    if expLen == BitCount(e1) {
      BitCountTop(e1);
    } else {
      BitCountTop(e2);
    }
  }

  // Both digits at position i, and the result up to the position where digits were taken last.
  ghost predicate BitsRead<T(!new)>(g: Group<T>, x: T, e1: nat, y: T, e2: nat, i: nat, firstTime: bool,
                                    prevPosition: nat, expLen: nat, power1: nat, power2: nat, result: T) {
    && ReadDownTo(e1, i, firstTime, prevPosition, expLen, power1)
    && ReadDownTo(e2, i, firstTime, prevPosition, expLen, power2)
    && (firstTime ==> prevPosition == expLen - 1 && (i < expLen ==> power1 > 0 || power2 > 0))
    && (!firstTime ==> result == Combination(g, x, y, Shr(e1, prevPosition), Shr(e2, prevPosition)))
  }

  // One more bit of both exponents.
  lemma ReadBits<T(!new)>(g: Group<T>, x: T, e1: nat, y: T, e2: nat, i: nat, firstTime: bool,
                                            prevPosition: nat, expLen: nat, power1: nat, power2: nat, result: T)
    requires BitsRead(g, x, e1, y, e2, i + 1, firstTime, prevPosition, expLen, power1, power2, result)
    requires expLen > 0 && (GetBit(e1, expLen - 1) || GetBit(e2, expLen - 1))
    ensures BitsRead(g, x, e1, y, e2, i, firstTime, prevPosition, expLen,
              2 * power1 + (if GetBit(e1, i) then 1 else 0), 2 * power2 + (if GetBit(e2, i) then 1 else 0), result)
  {
    ReadBit(e1, i, firstTime, prevPosition, expLen, power1);
    ReadBit(e2, i, firstTime, prevPosition, expLen, power2);
  }

  // The digits read so far become part of the result.
  method TakeDigits<T(!new)>(g: Group<T>, ghost x: T, ghost e1: nat, ghost y: T, ghost e2: nat, w: nat, table: seq<T>,
                             i: nat, firstTime: bool, prevPosition: nat, ghost expLen: nat, power1: nat, power2: nat, r: T)
    returns (result: T)
    requires g.Abelian() && |table| == Pow2(w + w)
    requires OddColumns(g, x, y, w, table, Pow2(w)) && OddRows(g, x, y, w, table, Pow2(w))
    requires BitsRead(g, x, e1, y, e2, i, firstTime, prevPosition, expLen, power1, power2, r)
    requires i < expLen && power1 < Pow2(w) && power2 < Pow2(w)
    ensures BitsRead(g, x, e1, y, e2, i, false, i, expLen, 0, 0, result)
  {
    DigitFits(e1, i, firstTime, prevPosition, expLen, power1);
    DigitFits(e2, i, firstTime, prevPosition, expLen, power2);
    result := AddDigits(g, x, y, w, table, r, firstTime, power1, power2, prevPosition - i,
                        Shr(e1, prevPosition), Shr(e2, prevPosition));
  }

  // One round of the main loop, for bit i: the bit is read into both digits, and when a digit fills its
  // window, or the bits run out, the digits are taken.
  method ReadBitPair<T(!new)>(g: Group<T>, ghost x: T, e1: nat, ghost y: T, e2: nat, w: nat, table: seq<T>, i: nat,
                              firstTimeIn: bool, prevPositionIn: nat, ghost expLen: nat, power1In: nat, power2In: nat,
                              resultIn: T)
    returns (firstTime: bool, prevPosition: nat, power1: nat, power2: nat, result: T)
    requires g.Abelian() && w >= 1 && |table| == Pow2(w + w)
    requires OddColumns(g, x, y, w, table, Pow2(w)) && OddRows(g, x, y, w, table, Pow2(w))
    requires BitsRead(g, x, e1, y, e2, i + 1, firstTimeIn, prevPositionIn, expLen, power1In, power2In, resultIn)
    requires i < expLen && (GetBit(e1, expLen - 1) || GetBit(e2, expLen - 1))
    requires power1In < Pow2(w - 1) && power2In < Pow2(w - 1)
    ensures BitsRead(g, x, e1, y, e2, i, firstTime, prevPosition, expLen, power1, power2, result)
    ensures power1 < Pow2(w - 1) && power2 < Pow2(w - 1)
    ensures i == 0 ==> !firstTime && prevPosition == 0 && power1 == 0 && power2 == 0
  {
    firstTime, prevPosition, result := firstTimeIn, prevPositionIn, resultIn;
    var tableSize := Pow2(w);
    power1 := 2 * power1In + (if GetBit(e1, i) then 1 else 0);
    power2 := 2 * power2In + (if GetBit(e2, i) then 1 else 0);
    ReadBits(g, x, e1, y, e2, i, firstTime, prevPosition, expLen, power1In, power2In, result);
    if i == 0 || 2 * power1 >= tableSize || 2 * power2 >= tableSize {
      result := TakeDigits(g, x, e1, y, e2, w, table, i, firstTime, prevPosition, expLen, power1, power2, result);
      prevPosition := i;
      firstTime := false;
      power1, power2 := 0, 0;
    }
  }

  method CascadeScalarMultiply<T(!new)>(g: Group<T>, x: T, e1: nat, y: T, e2: nat, blank: T) returns (result: T)
    requires g.Abelian()
    ensures result == g.Add(g.Times(e1, x), g.Times(e2, y))
  {
    var expLen := if BitCount(e1) > BitCount(e2) then BitCount(e1) else BitCount(e2);
    if expLen == 0 {
      CombinationUnits(g, x, y);
      return g.identity;
    }
    var w := WindowBits(expLen);
    var powerTable := FillTable(g, x, y, w, blank);

    result := blank;
    var power1: nat, power2: nat, prevPosition: nat := 0, 0, expLen - 1;
    var firstTime := true;
    var i: nat := expLen;
    TopBit(e1, e2, expLen);
    NothingRead(g, x, e1, y, e2, expLen, blank);
    while i > 0
      invariant i <= expLen
      invariant BitsRead(g, x, e1, y, e2, i, firstTime, prevPosition, expLen, power1, power2, result)
      invariant power1 < Pow2(w - 1) && power2 < Pow2(w - 1)
      invariant i == 0 ==> !firstTime && prevPosition == 0
    {
      i := i - 1;
      firstTime, prevPosition, power1, power2, result :=
        ReadBitPair(g, x, e1, y, e2, w, powerTable, i, firstTime, prevPosition, expLen, power1, power2, result);
    }
  }

  lemma NothingRead<T(!new)>(g: Group<T>, x: T, e1: nat, y: T, e2: nat, expLen: nat, blank: T)
    requires expLen > 0 && BitCount(e1) <= expLen && BitCount(e2) <= expLen
    ensures BitsRead(g, x, e1, y, e2, expLen, true, expLen - 1, expLen, 0, 0, blank)
  {
    ShrBeyond(e1, expLen);
    ShrBeyond(e2, expLen);
  }
}
