/** `kb_rmv_ghost_key`: removal of ghost keys from a scanned key matrix. A row holds one bit
    for every column. Two rows that share columns are suspect unless both hold the same
    single key. */
module GhostKeys {
  import opened Bits

  type Row = bv32

  // ------------------------------------------------------------- bits of a row

  function And(a: Row, b: Row): Row { a & b }

  function Or(a: Row, b: Row): Row { a | b }

  /** `a` without the columns of `b`. */
  function Minus(a: Row, b: Row): Row { a & !b }

  /** The rows have a column in common. */
  predicate Meets(a: Row, b: Row) { a & b != 0 }

  /** At most one bit is set. */
  predicate AtMostOneBit(x: Row) { x & (x - 1) == 0 }

  predicate Suspect(a: Row, b: Row) {
    var mix := a & b;
    mix != 0 && (!AtMostOneBit(mix) || a ^ b != 0)
  }

  function SharedIfSuspect(a: Row, b: Row): Row { if Suspect(a, b) then And(a, b) else 0 }

  lemma OrAssociative(a: Row, b: Row, c: Row)
    ensures Or(Or(a, b), c) == Or(a, Or(b, c)) && Or(a, 0) == a
  {
  }

  lemma OrMeets(a: Row, b: Row, c: Row)
    ensures Meets(Or(a, b), c) <==> Meets(a, c) || Meets(b, c)
  {
    hide Meets, Or;
    OrIs(a, b);
    if !Meets(a, c) && !Meets(b, c) {
      NeitherMeets(a, b, c);
    }
    if !Meets(a | b, c) {
      PartsMiss(a, b, c);
    }
  }

  lemma OrIs(a: Row, b: Row)
    ensures Or(a, b) == a | b
  {
  }

  lemma NeitherMeets(a: Row, b: Row, c: Row)
    requires !Meets(a, c) && !Meets(b, c)
    ensures !Meets(a | b, c)
  {
    NeitherOutside(a, b, c);
  }

  lemma PartsMiss(a: Row, b: Row, c: Row)
    requires !Meets(a | b, c)
    ensures !Meets(a, c) && !Meets(b, c)
  {
    OrOutside(a, b, c);
  }

  /** A row has a single column or it has not. */
  lemma SingleColumn(x: Row, c: Row)
    requires AtMostOneBit(c)
    ensures Meets(x, c) ==> And(x, c) == c
  {
    if Meets(x, c) {
      SingleBit(x, c);
    }
  }

  lemma ZeroMeets(c: Row)
    ensures !Meets(0, c)
  {
  }

  lemma MinusMeets(row: Row, mask: Row, c: Row)
    requires AtMostOneBit(c)
    ensures Meets(Minus(row, mask), c) <==> Meets(row, c) && !Meets(mask, c)
  {
    hide AtMostOneBit, Meets, Minus, And;
    SingleColumn(mask, c);
    MaskMisses(row, mask, c);
    MaskCovers(row, mask, c);
  }

  lemma MaskMisses(row: Row, mask: Row, c: Row)
    ensures !Meets(mask, c) ==> (Meets(Minus(row, mask), c) <==> Meets(row, c))
  {
    hide Meets, Minus;
    MinusIs(row, mask);
    if !Meets(mask, c) {
      RestMeets(row, mask, c);
    }
  }

  lemma MinusIs(row: Row, mask: Row)
    ensures Minus(row, mask) == row & !mask
  {
  }

  lemma RestMeets(row: Row, mask: Row, c: Row)
    requires !Meets(mask, c)
    ensures Meets(row & !mask, c) <==> Meets(row, c)
  {
    OtherBitsMasked(row, mask, c);
  }

  lemma MaskCovers(row: Row, mask: Row, c: Row)
    ensures And(mask, c) == c ==> !Meets(Minus(row, mask), c)
  {
    if And(mask, c) == c {
      BitsMasked(row, mask, c);
    }
  }

  /** What is not covered by a mask is met by the rest, and not by the mask. */
  lemma Uncovered(s: Row, m: Row)
    ensures !Meets(m, Minus(s, m))
    ensures Minus(s, m) != 0 ==> Meets(s, Minus(s, m))
  {
  }

  lemma SuspectWitness(a: Row, b: Row)
    ensures SharedIfSuspect(a, b) == if Suspect(a, b) then And(a, b) else 0
    ensures Suspect(a, b) ==> And(a, b) != 0
  {
  }

  /** Two rows that meet after masking, their suspect columns masked in the first. */
  lemma SameSingleKey(a: Row, b: Row, ma: Row, mb: Row)
    requires Meets(Minus(a, ma), Minus(b, mb)) && Minus(SharedIfSuspect(a, b), ma) == 0
    ensures Minus(a, ma) == Minus(b, mb) && AtMostOneBit(Minus(a, ma))
  {
    if Suspect(a, b) {
      MaskedApart(a, b, ma, mb);
    } else {
      assert a == b && AtMostOneBit(a) by { SameRow(a, b, ma, mb); }
      OneBit(a, ma, mb);
    }
  }

  lemma MaskedApart(a: Row, b: Row, ma: Row, mb: Row)
    requires Minus(And(a, b), ma) == 0
    ensures !Meets(Minus(a, ma), Minus(b, mb))
  {
  }

  lemma SameRow(a: Row, b: Row, ma: Row, mb: Row)
    requires !Suspect(a, b) && Meets(Minus(a, ma), Minus(b, mb))
    ensures a == b && AtMostOneBit(a)
  {
    assert a & b != 0 by { MeetsMore(a, b, ma, mb); }
    XorZero(a, b);
  }

  lemma MeetsMore(a: Row, b: Row, ma: Row, mb: Row)
    requires Meets(Minus(a, ma), Minus(b, mb))
    ensures a & b != 0
  {
  }

  lemma XorZero(a: Row, b: Row)
    ensures a ^ b == 0 <==> a == b
    ensures a == b ==> a & b == a
  {
  }

  lemma OneBit(a: Row, ma: Row, mb: Row)
    requires AtMostOneBit(a) && Meets(Minus(a, ma), Minus(a, mb))
    ensures Minus(a, ma) == a && Minus(a, mb) == a
  {
  }

  lemma MeetsCommutes(a: Row, b: Row)
    ensures Meets(a, b) == Meets(b, a)
  {
  }

  lemma CommonColumn(x: Row, y: Row, c: Row)
    requires AtMostOneBit(c) && Meets(x, c) && Meets(y, c)
    ensures Meets(x, y)
  {
  }

  lemma OneColumnOnly(x: Row, c: Row, d: Row)
    requires AtMostOneBit(x) && AtMostOneBit(c) && AtMostOneBit(d) && Meets(x, c) && Meets(x, d)
    ensures c == d
  {
  }

  lemma SelfNotSuspect(x: Row)
    requires AtMostOneBit(x)
    ensures !Suspect(x, x)
  {
  }

  lemma ApartNotSuspect(a: Row, b: Row)
    requires !Meets(a, b)
    ensures !Suspect(a, b)
  {
  }

  lemma LosesKey(a: Row, b: Row, m: Row)
    requires Suspect(a, b) && Minus(SharedIfSuspect(a, b), m) == 0
    ensures Minus(a, m) != a
  {
  }

  lemma MinusNothing(a: Row)
    ensures Minus(a, 0) == a
  {
  }

  lemma MeetsItself(m: Row)
    ensures Meets(m, m) <==> m != 0
  {
  }

  // ---------------------------------------------------------------- the removal

  /** The columns row `a` shares, as a suspect, with the rows after it and before `end`. */
  function MaskOfRow(rows: seq<Row>, a: nat, end: nat): Row
    requires a < end <= |rows|
  {
    if end == a + 1 then 0
    else Or(MaskOfRow(rows, a, end - 1), SharedIfSuspect(rows[a], rows[end - 1]))
  }

  /** The columns of all suspect pairs whose first row is before `end`. */
  function MaskBefore(rows: seq<Row>, end: nat): Row
    requires end <= |rows|
  {
    if end == 0 then 0 else Or(MaskBefore(rows, end - 1), MaskOfRow(rows, end - 1, |rows|))
  }

  function Cleaned(rows: seq<Row>): (out: seq<Row>)
    ensures |out| == |rows|
    ensures forall i :: 0 <= i < |rows| ==> out[i] == Minus(rows[i], MaskBefore(rows, i + 1))
  {
    seq(|rows|, i requires 0 <= i < |rows| => Minus(rows[i], MaskBefore(rows, i + 1)))
  }

  method RemoveGhostKeys(pressed: array<Row>)
    modifies pressed
    ensures pressed[..] == Cleaned(old(pressed[..]))
  {
    hide Minus, Or, MaskBefore, MaskOfRow;
    ghost var rows := pressed[..];
    var mixFinal: Row := 0;
    EmptyMask(rows);
    var i := 0;
    while i < pressed.Length
      invariant 0 <= i <= pressed.Length
      invariant mixFinal == MaskBefore(rows, i)
      invariant forall k :: 0 <= k < i ==> pressed[k] == Minus(rows[k], MaskBefore(rows, k + 1))
      invariant forall k :: i <= k < pressed.Length ==> pressed[k] == rows[k]
    {
      RowsAfter(rows, pressed[..], i);
      mixFinal := MixRow(pressed, i, mixFinal);
      NextMask(rows, i);
      pressed[i] := Minus(pressed[i], mixFinal);
      i := i + 1;
    }
  }

  /** The inner loop: the mask with what row `i` shares with the rows after it. */
  method MixRow(pressed: array<Row>, i: nat, mask: Row) returns (mixFinal: Row)
    requires i < pressed.Length
    ensures mixFinal == Or(mask, MaskOfRow(pressed[..], i, pressed.Length))
  {
    hide And, Or, Suspect, AtMostOneBit, SharedIfSuspect;
    mixFinal := mask;
    OrAssociative(mixFinal, 0, 0);
    var j := i + 1;
    while j < pressed.Length
      invariant i < j <= pressed.Length
      invariant mixFinal == Or(mask, MaskOfRow(pressed[..], i, j))
    {
      var mix := And(pressed[i], pressed[j]);
      SuspectWitness(pressed[i], pressed[j]);
      OrAssociative(mask, MaskOfRow(pressed[..], i, j), SharedIfSuspect(pressed[i], pressed[j]));
      OrAssociative(mixFinal, 0, 0);
      if Suspect(pressed[i], pressed[j]) {
        mixFinal := Or(mixFinal, mix);
      }
      j := j + 1;
    }
  }

  lemma EmptyMask(rows: seq<Row>)
    ensures MaskBefore(rows, 0) == 0
  {
  }

  lemma NextMask(rows: seq<Row>, i: nat)
    requires i < |rows|
    ensures MaskBefore(rows, i + 1) == Or(MaskBefore(rows, i), MaskOfRow(rows, i, |rows|))
  {
  }

  /** The mask of a row depends on this row and the ones after it only. */
  lemma RowsAfter(rows: seq<Row>, pressed: seq<Row>, i: nat)
    requires i < |rows| == |pressed| && forall k :: i <= k < |rows| ==> pressed[k] == rows[k]
    ensures MaskOfRow(pressed, i, |rows|) == MaskOfRow(rows, i, |rows|)
  {
    SameMask(rows, pressed, i, |rows|);
  }

  lemma {:induction false} SameMask(rows: seq<Row>, pressed: seq<Row>, i: nat, end: nat)
    requires i < end <= |rows| == |pressed| && forall k :: i <= k < |rows| ==> pressed[k] == rows[k]
    ensures MaskOfRow(pressed, i, end) == MaskOfRow(rows, i, end)
  {
    hide Or, SharedIfSuspect;
    if end > i + 1 {
      SameMask(rows, pressed, i, end - 1);
    }
  }

  /** Some suspect pair (a, b) with a < end shares a column of `c`. */
  ghost predicate InSuspectPair(rows: seq<Row>, end: nat, c: Row)
    requires end <= |rows|
  {
    exists a, b :: 0 <= a < end && a < b < |rows| && Meets(SharedIfSuspect(rows[a], rows[b]), c)
  }

  lemma {:induction false} MaskOfRowIsUnion(rows: seq<Row>, a: nat, end: nat, c: Row)
    requires a < end <= |rows|
    ensures Meets(MaskOfRow(rows, a, end), c)
      <==> exists b :: a < b < end && Meets(SharedIfSuspect(rows[a], rows[b]), c)
  {
    hide SharedIfSuspect, Meets, Or;
    if end == a + 1 {
      ZeroMeets(c);
    } else {
      MaskOfRowIsUnion(rows, a, end - 1, c);
      OrMeets(MaskOfRow(rows, a, end - 1), SharedIfSuspect(rows[a], rows[end - 1]), c);
    }
  }

  lemma {:induction false} MaskIsUnion(rows: seq<Row>, end: nat, c: Row)
    requires end <= |rows|
    ensures Meets(MaskBefore(rows, end), c) <==> InSuspectPair(rows, end, c)
  {
    hide SharedIfSuspect, Meets, Or, MaskOfRow;
    if end == 0 {
      ZeroMeets(c);
    } else {
      MaskIsUnion(rows, end - 1, c);
      MaskOfRowIsUnion(rows, end - 1, |rows|, c);
      OrMeets(MaskBefore(rows, end - 1), MaskOfRow(rows, end - 1, |rows|), c);
    }
  }

  /** The key in row `i` and column `c` is kept exactly if it was pressed and no suspect
      pair whose first row is `i` or an earlier one shares its column. */
  lemma KeptKeys(rows: seq<Row>, i: nat, c: Row)
    requires i < |rows| && c != 0 && AtMostOneBit(c)
    ensures Meets(Cleaned(rows)[i], c) <==> Meets(rows[i], c) && !InSuspectPair(rows, i + 1, c)
  {
    hide AtMostOneBit, Meets, Minus, MaskBefore, InSuspectPair;
    MaskIsUnion(rows, i + 1, c);
    MinusMeets(rows[i], MaskBefore(rows, i + 1), c);
  }

  /** Two rows hold the key of column `c`, and another key besides. */
  predicate ShareOneOfMore(a: Row, b: Row, c: Row) {
    a & c != 0 && b & c != 0 && a | b != c
  }

  lemma SharedColumn(a: Row, b: Row, c: Row)
    requires AtMostOneBit(c)
    ensures Meets(SharedIfSuspect(a, b), c) <==> ShareOneOfMore(a, b, c)
  {
    if ShareOneOfMore(a, b, c) {
      SuspectThen(a, b, c);
    } else if Meets(a & b, c) {
      BitOfBoth(a, b, c);
      OneKeyNotSuspect(a, b, c);
    }
    SharedIs(a, b, c);
  }

  lemma SharedIs(a: Row, b: Row, c: Row)
    ensures Meets(SharedIfSuspect(a, b), c) <==> Suspect(a, b) && Meets(a & b, c)
  {
  }

  lemma SuspectThen(a: Row, b: Row, c: Row)
    requires AtMostOneBit(c) && ShareOneOfMore(a, b, c)
    ensures Suspect(a, b) && Meets(a & b, c)
  {
    BitInBoth(a, b, c);
    if !Suspect(a, b) {
      XorZero(a, b);
      SameSingle(a & b, c);
    }
  }

  lemma OneKeyNotSuspect(a: Row, b: Row, c: Row)
    requires AtMostOneBit(c) && a | b == c && Meets(a & b, c)
    ensures !Suspect(a, b)
  {
    BothSingle(a, b, c);
    SelfNotSuspect(c);
  }

  /** The same in terms of keys: a pressed key is taken out exactly if a row at or above it and
      one below that row both hold its column, and one of them holds another key. So no key
      is lost that could not be, or help to make, a ghost. */
  lemma RemovedKeys(rows: seq<Row>, i: nat, c: Row)
    requires i < |rows| && c != 0 && AtMostOneBit(c)
    ensures Meets(Cleaned(rows)[i], c) <==>
      Meets(rows[i], c) && !exists a, b :: 0 <= a <= i && a < b < |rows| && ShareOneOfMore(rows[a], rows[b], c)
  {
    hide AtMostOneBit, Meets, Minus, MaskBefore, SharedIfSuspect, ShareOneOfMore;
    KeptKeys(rows, i, c);
    forall a, b | 0 <= a < b < |rows|
      ensures Meets(SharedIfSuspect(rows[a], rows[b]), c) <==> ShareOneOfMore(rows[a], rows[b], c)
    {
      SharedColumn(rows[a], rows[b], c);
    }
  }

  // ------------------------------------------------------------- what is left

  lemma PairInMask(rows: seq<Row>, a: nat, b: nat, i: nat)
    requires a <= i < |rows| && a < b < |rows|
    ensures Minus(SharedIfSuspect(rows[a], rows[b]), MaskBefore(rows, i + 1)) == 0
  {
    hide SharedIfSuspect, Minus, Meets, MaskBefore;
    var s, m := SharedIfSuspect(rows[a], rows[b]), MaskBefore(rows, i + 1);
    Uncovered(s, m);
    MaskIsUnion(rows, i + 1, Minus(s, m));
  }

  /** After the removal two rows that share a column hold the same single key. */
  lemma SharingRowsAreSingle(rows: seq<Row>, i: nat, k: nat)
    requires i < |rows| && k < |rows| && i != k
    requires Meets(Cleaned(rows)[i], Cleaned(rows)[k])
    ensures Cleaned(rows)[i] == Cleaned(rows)[k] && AtMostOneBit(Cleaned(rows)[i])
  {
    hide SharedIfSuspect, AtMostOneBit, MaskBefore, Meets, Minus;
    var a, b := if i < k then i else k, if i < k then k else i;
    PairInMask(rows, a, b, a);
    MeetsCommutes(Cleaned(rows)[i], Cleaned(rows)[k]);
    SameSingleKey(rows[a], rows[b], MaskBefore(rows, a + 1), MaskBefore(rows, b + 1));
  }

  /** No three of the remaining keys are corners of a rectangle. */
  lemma NoRectangle(rows: seq<Row>, i: nat, k: nat, c: Row, d: Row)
    requires i < |rows| && k < |rows| && i != k
    requires c != d && AtMostOneBit(c) && AtMostOneBit(d)
    ensures !(Meets(Cleaned(rows)[i], c) && Meets(Cleaned(rows)[i], d) && Meets(Cleaned(rows)[k], c))
  {
    hide Cleaned, Meets, AtMostOneBit;
    var x, y := Cleaned(rows)[i], Cleaned(rows)[k];
    if Meets(x, c) && Meets(x, d) && Meets(y, c) {
      CommonColumn(x, y, c);
      SharingRowsAreSingle(rows, i, k);
      OneColumnOnly(x, c, d);
    }
  }

  ghost predicate NoSuspects(rows: seq<Row>) {
    forall a, b :: 0 <= a < b < |rows| ==> !Suspect(rows[a], rows[b])
  }

  lemma CleanedHasNoSuspects(rows: seq<Row>)
    ensures NoSuspects(Cleaned(rows))
  {
    hide Suspect, Meets, AtMostOneBit, Minus, MaskBefore;
    var out := Cleaned(rows);
    forall a, b | 0 <= a < b < |out|
      ensures !Suspect(out[a], out[b])
    {
      if Meets(out[a], out[b]) {
        SharingRowsAreSingle(rows, a, b);
        SelfNotSuspect(out[a]);
      } else {
        ApartNotSuspect(out[a], out[b]);
      }
    }
  }

  /** A matrix is left as it is exactly if it has no suspect pair. */
  lemma UnchangedIffNoSuspects(rows: seq<Row>)
    ensures Cleaned(rows) == rows <==> NoSuspects(rows)
  {
    hide MaskBefore, Suspect, SharedIfSuspect, Minus;
    if NoSuspects(rows) {
      forall i | 0 <= i < |rows|
        ensures Cleaned(rows)[i] == rows[i]
      {
        MaskEmpty(rows, i + 1);
        MinusNothing(rows[i]);
      }
    } else {
      var a, b :| 0 <= a < b < |rows| && Suspect(rows[a], rows[b]);
      PairInMask(rows, a, b, a);
      LosesKey(rows[a], rows[b], MaskBefore(rows, a + 1));
      assert Cleaned(rows)[a] != rows[a];
    }
  }

  lemma MaskEmpty(rows: seq<Row>, end: nat)
    requires end <= |rows| && NoSuspects(rows)
    ensures MaskBefore(rows, end) == 0
  {
    hide MaskBefore, Suspect, Meets, And;
    var m := MaskBefore(rows, end);
    MaskIsUnion(rows, end, m);
    MeetsItself(m);
    ZeroMeets(m);
  }

  /** Removing ghosts a second time changes nothing. */
  lemma Idempotent(rows: seq<Row>)
    ensures Cleaned(Cleaned(rows)) == Cleaned(rows)
  {
    CleanedHasNoSuspects(rows);
    UnchangedIffNoSuspects(Cleaned(rows));
  }
}
