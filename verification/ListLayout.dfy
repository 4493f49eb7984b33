/**
 Assigning to LIST and ARRAY columns.  Both keep the elements of all rows in one flat child
 buffer: a LIST row has a slot that says where its elements lie, an ARRAY row owns a fixed
 stride.  Element casts are a function given by the caller.
 */
module ListLayout {

  datatype Elem<T> = Null | Val(v: T)

  datatype Slot = Slot(offset: nat, length: nat)

  /** A value column: rows with a NULL flag, and slots into, or strides of, the elements. */
  datatype Source<S> =
    | Lists(nulls: seq<bool>, elems: seq<Elem<S>>, slots: seq<Slot>)
    | Arrays(nulls: seq<bool>, elems: seq<Elem<S>>, stride: nat)

  /** Where the elements of a row lie in the value column. */
  function SlotOf<S>(src: Source<S>, row: nat): Slot
    requires src.Lists? ==> row < |src.slots|
  {
    if src.Lists? then src.slots[row] else Slot(row * src.stride, src.stride)
  }

  ghost predicate Covers<S>(src: Source<S>, count: nat) {
    && count <= |src.nulls|
    && (src.Lists? ==> count <= |src.slots|)
    && forall row: nat | row < count :: SlotOf(src, row).offset + SlotOf(src, row).length <= |src.elems|
  }

  function CastElem<S, T>(e: Elem<S>, cast: S -> T): Elem<T> {
    match e
    case Null => Null
    case Val(v) => Val(cast(v))
  }

  function CastAll<S, T>(es: seq<Elem<S>>, cast: S -> T): seq<Elem<T>> {
    seq(|es|, i requires 0 <= i < |es| => CastElem(es[i], cast))
  }

  /** The elements a row of the value column stands for. */
  function Piece<S, T>(src: Source<S>, row: nat, cast: S -> T): (p: seq<Elem<T>>)
    requires Covers(src, row + 1)
  {
    if src.nulls[row] then []
    else var s := SlotOf(src, row); CastAll(src.elems[s.offset..s.offset + s.length], cast)
  }

  /** A row of an ARRAY column is its stride of the elements: element `j` lies `row` strides in. */
  lemma PieceOfArray<S, T>(src: Source<S>, row: nat, cast: S -> T, j: nat)
    requires src.Arrays? && Covers(src, row + 1) && !src.nulls[row] && j < src.stride
    ensures |Piece(src, row, cast)| == src.stride && 0 <= row * src.stride + j < |src.elems|
    ensures Piece(src, row, cast)[j] ==
            match src.elems[row * src.stride + j]
            case Null => Null
            case Val(v) => Val(cast(v))
  {
    assert SlotOf(src, row).offset + SlotOf(src, row).length <= |src.elems|;
  }

  /** A row of a LIST column is the elements its slot spans. */
  lemma PieceOfList<S, T>(src: Source<S>, row: nat, cast: S -> T, j: nat)
    requires src.Lists? && Covers(src, row + 1) && !src.nulls[row] && j < src.slots[row].length
    ensures |Piece(src, row, cast)| == src.slots[row].length && src.slots[row].offset + j < |src.elems|
    ensures Piece(src, row, cast)[j] ==
            match src.elems[src.slots[row].offset + j]
            case Null => Null
            case Val(v) => Val(cast(v))
  {
    assert SlotOf(src, row).offset + SlotOf(src, row).length <= |src.elems|;
  }

  lemma PieceOfNull<S, T>(src: Source<S>, row: nat, cast: S -> T)
    requires Covers(src, row + 1)
    ensures src.nulls[row] ==> Piece(src, row, cast) == []
    ensures !src.nulls[row] ==> |Piece(src, row, cast)| == if src.Lists? then src.slots[row].length else src.stride
  {
  }

  /** An ARRAY column covers its rows exactly when it has a stride of elements for each. */
  lemma ArraysCover<S>(src: Source<S>, count: nat)
    requires src.Arrays?
    ensures Covers(src, count) <==> count <= |src.nulls| && (count > 0 ==> count * src.stride <= |src.elems|)
  {
    if count > 0 {
      if Covers(src, count) {
        assert SlotOf(src, count - 1).offset + SlotOf(src, count - 1).length <= |src.elems|;
        MulMono(count, count, src.stride);
      } else if count <= |src.nulls| && count * src.stride <= |src.elems| {
        forall row: nat | row < count ensures SlotOf(src, row).offset + SlotOf(src, row).length <= |src.elems| {
          MulMono(row + 1, count, src.stride);
        }
      }
    }
  }

  /** The pieces of the first `n` rows, one after the other. */
  function Flat<S, T>(src: Source<S>, n: nat, cast: S -> T): seq<Elem<T>>
    requires Covers(src, n)
  {
    if n == 0 then [] else Flat(src, n - 1, cast) + Piece(src, n - 1, cast)
  }

  /** How far into the elements any of the first `count` rows reaches. */
  method Reach<S>(src: Source<S>, count: nat) returns (n: nat)
    requires Covers(src, count)
    ensures n <= |src.elems|
    ensures forall row: nat | row < count :: SlotOf(src, row).offset + SlotOf(src, row).length <= n
  {
    n := 0;
    var row := 0;
    while row < count
      invariant 0 <= row <= count && n <= |src.elems|
      invariant forall r: nat | r < row :: SlotOf(src, r).offset + SlotOf(src, r).length <= n
    {
      var s := SlotOf(src, row);
      if s.offset + s.length > n {
        n := s.offset + s.length;
      }
      row := row + 1;
    }
  }

  lemma CastSlice<S, T>(es: seq<Elem<S>>, n: nat, s: Slot, cast: S -> T)
    requires s.offset + s.length <= n <= |es|
    ensures CastAll(es[..n], cast)[s.offset..s.offset + s.length]
            == CastAll(es[s.offset..s.offset + s.length], cast)
  {
  }

  // ------------------------------------------------------------ LIST columns

  /** The slot of row `row` after a whole-column assignment. */
  function NewSlot<S, T>(src: Source<S>, row: nat, cast: S -> T): Slot
    requires Covers(src, row + 1)
  {
    Slot(|Flat(src, row, cast)|, |Piece(src, row, cast)|)
  }

  lemma FlatStart<S, T>(src: Source<S>, cast: S -> T)
    ensures Flat(src, 0, cast) == []
  {
  }

  /** One more row, its elements taken from the cast prefix. */
  lemma FlatStep<S, T>(src: Source<S>, row: nat, n: nat, cast: S -> T)
    requires Covers(src, row + 1) && n <= |src.elems|
    requires SlotOf(src, row).offset + SlotOf(src, row).length <= n
    ensures var s, elems := SlotOf(src, row), CastAll(src.elems[..n], cast);
            && |elems| == n
            && Piece(src, row, cast) == (if src.nulls[row] then [] else elems[s.offset..s.offset + s.length])
            && Flat(src, row + 1, cast)
               == Flat(src, row, cast) + (if src.nulls[row] then [] else elems[s.offset..s.offset + s.length])
            && NewSlot(src, row, cast) == Slot(|Flat(src, row, cast)|, if src.nulls[row] then 0 else s.length)
  {
    CastSlice(src.elems, n, SlotOf(src, row), cast);
  }

  class ListColumn<T> {
    const slots: array<Slot>
    const nulls: array<bool>
    var child: seq<Elem<T>>

    ghost predicate Valid()
      reads this
    {
      slots.Length == nulls.Length
    }

    constructor (rows: nat)
      ensures Valid() && slots.Length == rows && child == []
      ensures fresh(slots) && fresh(nulls)
    {
      slots := new Slot[rows](_ => Slot(0, 0));
      nulls := new bool[rows](_ => false);
      child := [];
    }

    /** Whole-column assignment: the child buffer is rebuilt and every slot re-pointed. */
    method Assign<S>(src: Source<S>, count: nat, cast: S -> T) returns (modified: seq<bool>)
      requires Valid() && Covers(src, count) && count <= slots.Length
      modifies this, slots, nulls
      ensures Valid() && child == Flat(src, count, cast)
      ensures forall row: nat | row < count :: slots[row] == NewSlot(src, row, cast)
      ensures forall row: nat | row < count :: nulls[row] == (old(nulls[row]) || src.nulls[row])
      ensures forall row | count <= row < slots.Length ::
          slots[row] == old(slots[row]) && nulls[row] == old(nulls[row])
      ensures |modified| == count && forall row | 0 <= row < count :: modified[row]
    {
      hide Flat, NewSlot, Piece, CastAll, SlotOf;
      modified := seq(count, _ => false);
      var n := Reach(src, count);
      var elems := CastAll(src.elems[..n], cast);
      child := [];
      FlatStart(src, cast);
      var row := 0;
      while row < count
        invariant 0 <= row <= count && child == Flat(src, row, cast)
        invariant forall r: nat | r < row :: slots[r] == NewSlot(src, r, cast)
        invariant forall r: nat | r < row :: nulls[r] == (old(nulls[r]) || src.nulls[r])
        invariant forall r | row <= r < slots.Length ::
            slots[r] == old(slots[r]) && nulls[r] == old(nulls[r])
        invariant |modified| == count && forall r | 0 <= r < row :: modified[r]
      {
        var s := SlotOf(src, row);
        FlatStep(src, row, n, cast);
        if src.nulls[row] {
          nulls[row] := true;
          slots[row] := Slot(|child|, 0);
        } else {
          slots[row] := Slot(|child|, s.length);
          child := child + elems[s.offset..s.offset + s.length];
        }
        modified := modified[row := true];
        row := row + 1;
      }
    }

    /** Assignment to element `j` of every row; a shorter row is passed over. */
    method AssignElement(j: nat, vals: seq<Elem<T>>, count: nat) returns (modified: seq<bool>)
      requires Valid() && count <= slots.Length && count <= |vals|
      requires Inside(slots[..count], |child|)
      modifies this
      ensures child == Patched(old(child), slots[..count], j, vals)
      ensures |modified| == count
      ensures forall row | 0 <= row < count :: modified[row] <==> j < slots[row].length
    {
      modified := seq(count, _ => false);
      var row := 0;
      ghost var all := slots[..count];
      assert all[..0] == [];
      while row < count
        invariant 0 <= row <= count && all == slots[..count] && |child| == |old(child)|
        invariant child == Patched(old(child), all[..row], j, vals)
        invariant |modified| == count
        invariant forall r | 0 <= r < row :: modified[r] <==> j < slots[r].length
        invariant forall r | row <= r < count :: !modified[r]
      {
        assert all[..row + 1][..row] == all[..row];
        assert all[row] == slots[row];
        if j < slots[row].length {
          child := child[slots[row].offset + j := vals[row]];
          modified := modified[row := true];
        }
        row := row + 1;
      }
      assert all[..row] == all;
    }
  }

  ghost predicate Inside(slots: seq<Slot>, size: nat) {
    forall i | 0 <= i < |slots| :: slots[i].offset + slots[i].length <= size
  }

  /** The child buffer once element `j` of every long enough row has been written. */
  ghost function Patched<T>(child: seq<Elem<T>>, slots: seq<Slot>, j: nat, vals: seq<Elem<T>>): (r: seq<Elem<T>>)
    requires Inside(slots, |child|) && |slots| <= |vals|
    ensures |r| == |child|
  {
    if slots == [] then child
    else
      var n := |slots| - 1;
      var before := Patched(child, slots[..n], j, vals);
      if j < slots[n].length then before[slots[n].offset + j := vals[n]] else before
  }

  /** The elements of a row. */
  ghost function RowAt<T>(child: seq<Elem<T>>, s: Slot): seq<Elem<T>>
    requires s.offset + s.length <= |child|
  {
    child[s.offset..s.offset + s.length]
  }

  // ------------------------------------------------------------ what the slots promise

  lemma {:induction false} FlatPrefix<S, T>(src: Source<S>, m: nat, n: nat, cast: S -> T)
    requires m <= n && Covers(src, n)
    ensures Flat(src, m, cast) <= Flat(src, n, cast)
  {
    if m < n {
      FlatPrefix(src, m, n - 1, cast);
    }
  }

  lemma MiddleOf<T>(a: seq<Elem<T>>, b: seq<Elem<T>>, whole: seq<Elem<T>>)
    requires a + b <= whole
    ensures |a| + |b| <= |whole| && RowAt(whole, Slot(|a|, |b|)) == b
  {
    assert whole[..|a| + |b|] == a + b;
  }

  ghost function Lengths<S, T>(src: Source<S>, n: nat, cast: S -> T): nat
    requires Covers(src, n)
  {
    if n == 0 then 0 else Lengths(src, n - 1, cast) + |Piece(src, n - 1, cast)|
  }

  /**
   After a whole-column assignment the rows tile the child buffer: each row starts where the
   one before it ends, the last ends with the buffer, whose size is the sum of the lengths, and
   each row reads exactly its source elements.
   */
  lemma {:induction false} RowsTile<S, T>(src: Source<S>, count: nat, row: nat, cast: S -> T)
    requires row < count && Covers(src, count)
    ensures var child, s := Flat(src, count, cast), NewSlot(src, row, cast);
            && s.offset + s.length <= |child| && RowAt(child, s) == Piece(src, row, cast)
            && s.offset == Lengths(src, row, cast)
            && s.offset + s.length == (if row + 1 < count then NewSlot(src, row + 1, cast).offset else |child|)
            && |child| == Lengths(src, count, cast)
  {
    hide Piece, CastAll, Lengths;
    FlatPrefix(src, row + 1, count, cast);
    MiddleOf(Flat(src, row, cast), Piece(src, row, cast), Flat(src, count, cast));
    FlatLength(src, row, cast);
    FlatLength(src, count, cast);
  }

  lemma {:induction false} FlatLength<S, T>(src: Source<S>, n: nat, cast: S -> T)
    requires Covers(src, n)
    ensures |Flat(src, n, cast)| == Lengths(src, n, cast)
  {
    if n > 0 {
      FlatLength(src, n - 1, cast);
    }
  }

  ghost predicate Apart(slots: seq<Slot>) {
    forall a, b | 0 <= a < b < |slots| ::
      slots[a].offset + slots[a].length <= slots[b].offset || slots[b].offset + slots[b].length <= slots[a].offset
  }

  lemma RowsInOrder<S, T>(src: Source<S>, a: nat, b: nat, cast: S -> T)
    requires a < b && Covers(src, b + 1)
    ensures NewSlot(src, a, cast).offset + NewSlot(src, a, cast).length <= NewSlot(src, b, cast).offset
  {
    hide Piece;
    FlatPrefix(src, a + 1, b, cast);
  }

  /** No two rows share an element of the buffer. */
  lemma RowsAreApart<S, T>(src: Source<S>, slots: seq<Slot>, cast: S -> T)
    requires Covers(src, |slots|)
    requires forall row: nat | row < |slots| :: slots[row] == NewSlot(src, row, cast)
    ensures Apart(slots) && Inside(slots, |Flat(src, |slots|, cast)|)
  {
    hide NewSlot, Flat;
    forall row: nat | row < |slots|
      ensures slots[row].offset + slots[row].length <= |Flat(src, |slots|, cast)|
    {
      RowsTile(src, |slots|, row, cast);
    }
    forall a: nat, b: nat | a < b < |slots|
      ensures slots[a].offset + slots[a].length <= slots[b].offset
    {
      RowsInOrder(src, a, b, cast);
    }
  }

  /** An element update changes element `j` of the rows longer than `j`, and nothing else. */
  lemma {:induction false} PatchedRow<T>(child: seq<Elem<T>>, slots: seq<Slot>, j: nat, vals: seq<Elem<T>>, s: Slot,
                                         i: nat)
    requires Inside(slots, |child|) && |slots| <= |vals| && s.offset + s.length <= |child|
    requires i < |slots| ==> slots[i] == s
    requires forall k | 0 <= k < |slots| && k != i ::
        slots[k].offset + slots[k].length <= s.offset || s.offset + s.length <= slots[k].offset
    ensures RowAt(Patched(child, slots, j, vals), s)
            == if i < |slots| && j < s.length then RowAt(child, s)[j := vals[i]] else RowAt(child, s)
    decreases |slots|
  {
    if slots != [] {
      var n := |slots| - 1;
      PatchedRow(child, slots[..n], j, vals, s, i);
      var before := Patched(child, slots[..n], j, vals);
      if j < slots[n].length {
        WriteRow(before, slots[n].offset + j, vals[n], s);
      }
    }
  }

  lemma WriteRow<T>(child: seq<Elem<T>>, at: nat, x: Elem<T>, s: Slot)
    requires at < |child| && s.offset + s.length <= |child|
    ensures RowAt(child[at := x], s)
            == if s.offset <= at < s.offset + s.length then RowAt(child, s)[at - s.offset := x] else RowAt(child, s)
  {
  }

  /** The element update read row by row, over slots that lie apart. */
  lemma ElementUpdate<T>(child: seq<Elem<T>>, slots: seq<Slot>, j: nat, vals: seq<Elem<T>>, i: nat)
    requires Inside(slots, |child|) && |slots| <= |vals| && Apart(slots) && i < |slots|
    ensures RowAt(Patched(child, slots, j, vals), slots[i])
            == if j < slots[i].length then RowAt(child, slots[i])[j := vals[i]] else RowAt(child, slots[i])
  {
    PatchedRow(child, slots, j, vals, slots[i], i);
  }

  /** A whole-column assignment followed by an element update, as each row then reads. */
  lemma AssignThenElement<S, T>(src: Source<S>, slots: seq<Slot>, cast: S -> T, j: nat, vals: seq<Elem<T>>, row: nat)
    requires Covers(src, |slots|) && |slots| <= |vals| && row < |slots|
    requires forall r: nat | r < |slots| :: slots[r] == NewSlot(src, r, cast)
    ensures Inside(slots, |Flat(src, |slots|, cast)|)
    ensures var p := Piece(src, row, cast);
            RowAt(Patched(Flat(src, |slots|, cast), slots, j, vals), slots[row])
            == if j < |p| then p[j := vals[row]] else p
  {
    hide Flat, Piece, Patched, RowAt;
    RowsAreApart(src, slots, cast);
    RowsTile(src, |slots|, row, cast);
    ElementUpdate(Flat(src, |slots|, cast), slots, j, vals, row);
  }

  // ------------------------------------------------------------ ARRAY columns

  /** A piece cut off at `stride`, or filled up to it with NULLs. */
  function Fit<T>(piece: seq<Elem<T>>, stride: nat): (r: seq<Elem<T>>)
    ensures |r| == stride
  {
    seq(stride, j requires 0 <= j < stride => if j < |piece| then piece[j] else Null)
  }

  function Rows<S, T>(src: Source<S>, n: nat, stride: nat, cast: S -> T): (r: seq<Elem<T>>)
    requires Covers(src, n)
    ensures |r| == n * stride
  {
    if n == 0 then [] else Rows(src, n - 1, stride, cast) + Fit(Piece(src, n - 1, cast), stride)
  }

  /** The child buffer with the first `n` rows replaced and the rest as it was. */
  ghost function Progress<S, T>(src: Source<S>, n: nat, stride: nat, cast: S -> T, was: seq<Elem<T>>): (r: seq<Elem<T>>)
    requires Covers(src, n) && n * stride <= |was|
    ensures |r| == |was|
  {
    Rows(src, n, stride, cast) + was[n * stride..]
  }

  ghost function Overwrite<T>(child: seq<Elem<T>>, base: nat, part: seq<Elem<T>>): seq<Elem<T>>
    requires base + |part| <= |child|
  {
    child[..base] + part + child[base + |part|..]
  }

  class ArrayColumn<T> {
    const stride: nat
    const nulls: array<bool>
    const child: array<Elem<T>>

    ghost predicate Valid() {
      child.Length == nulls.Length * stride
    }

    constructor (rows: nat, stride: nat)
      ensures Valid() && nulls.Length == rows && this.stride == stride
      ensures fresh(nulls) && fresh(child)
    {
      this.stride := stride;
      nulls := new bool[rows](_ => false);
      child := new Elem<T>[rows * stride](_ => Null);
    }

    /** One row: copy what there is and fits, and fill the rest of the stride with NULLs. */
    method AssignRow(base: nat, piece: seq<Elem<T>>)
      requires base + stride <= child.Length
      modifies child
      ensures child[..] == Overwrite(old(child[..]), base, Fit(piece, stride))
    {
      var copied := if |piece| < stride then |piece| else stride;
      var j := 0;
      while j < copied
        invariant 0 <= j <= copied
        invariant forall p | 0 <= p < child.Length ::
            child[p] == if base <= p < base + j then piece[p - base] else old(child[p])
      {
        child[base + j] := piece[j];
        j := j + 1;
      }
      while j < stride
        invariant copied <= j <= stride
        invariant forall p | 0 <= p < child.Length ::
            child[p] == if base <= p < base + j
                        then (if p - base < copied then piece[p - base] else Null)
                        else old(child[p])
      {
        child[base + j] := Null;
        j := j + 1;
      }
    }

    /** Whole-column assignment. */
    method Assign<S>(src: Source<S>, count: nat, cast: S -> T) returns (modified: seq<bool>)
      requires Valid() && Covers(src, count) && count <= nulls.Length
      modifies nulls, child
      ensures count * stride <= child.Length
      ensures child[..] == Progress(src, count, stride, cast, old(child[..]))
      ensures forall row: nat | row < count :: nulls[row] == (old(nulls[row]) || src.nulls[row])
      ensures forall row | count <= row < nulls.Length :: nulls[row] == old(nulls[row])
      ensures |modified| == count && forall row | 0 <= row < count :: modified[row]
    {
      hide Progress, Fit, Piece, CastAll, SlotOf, Overwrite;
      modified := seq(count, _ => false);
      var n := Reach(src, count);
      var elems := CastAll(src.elems[..n], cast);
      ghost var was := child[..];
      MulMono(count, nulls.Length, stride);
      RowsStart(src, stride, cast, was);
      var row := 0;
      while row < count
        invariant 0 <= row <= count && 0 <= row * stride <= |was| == child.Length
        invariant child[..] == Progress(src, row, stride, cast, was)
        invariant forall r: nat | r < row :: nulls[r] == (old(nulls[r]) || src.nulls[r])
        invariant forall r | row <= r < nulls.Length :: nulls[r] == old(nulls[r])
        invariant |modified| == count && forall r | 0 <= r < row :: modified[r]
      {
        var s := SlotOf(src, row);
        FlatStep(src, row, n, cast);
        MulMono(row + 1, nulls.Length, stride);
        RowsStep(src, row, stride, cast, was);
        if src.nulls[row] {
          nulls[row] := true;
          AssignRow(row * stride, []);
        } else {
          AssignRow(row * stride, elems[s.offset..s.offset + s.length]);
        }
        modified := modified[row := true];
        row := row + 1;
      }
    }

    /** Assignment to element `j` of every row. */
    method AssignElement(j: nat, vals: seq<Elem<T>>, count: nat)
      requires Valid() && j < stride && count <= nulls.Length && count <= |vals|
      modifies child
      ensures child[..] == Strided(old(child[..]), count, stride, j, vals)
    {
      ghost var was := child[..];
      var i := 0;
      while i < count
        invariant 0 <= i <= count
        invariant child[..] == Strided(was, i, stride, j, vals)
      {
        MulMono(i + 1, nulls.Length, stride);
        child[i * stride + j] := vals[i];
        i := i + 1;
      }
    }
  }

  lemma MulMono(a: nat, b: nat, m: nat)
    requires a <= b
    ensures 0 <= a * m <= b * m
    ensures a > 0 ==> (a - 1) * m + m == a * m
  {
    assert b * m == a * m + (b - a) * m;
  }

  lemma RowsStart<S, T>(src: Source<S>, stride: nat, cast: S -> T, was: seq<Elem<T>>)
    ensures 0 * stride == 0 && Progress(src, 0, stride, cast, was) == was
  {
  }

  /** Writing one row extends the rows that are done. */
  lemma RowsStep<S, T>(src: Source<S>, row: nat, stride: nat, cast: S -> T, was: seq<Elem<T>>)
    requires Covers(src, row + 1) && row * stride + stride == (row + 1) * stride <= |was|
    ensures Overwrite(Progress(src, row, stride, cast, was), row * stride, Fit(Piece(src, row, cast), stride))
            == Progress(src, row + 1, stride, cast, was)
  {
    hide Piece, Fit;
    Splice(Rows(src, row, stride, cast), Fit(Piece(src, row, cast), stride), was);
  }

  lemma Splice<T>(done: seq<Elem<T>>, part: seq<Elem<T>>, was: seq<Elem<T>>)
    requires |done| + |part| <= |was|
    ensures Overwrite(done + was[|done|..], |done|, part) == done + part + was[|done| + |part|..]
  {
    var c := done + was[|done|..];
    assert c[..|done|] == done && c[|done| + |part|..] == was[|done| + |part|..];
  }

  /** Slot `row * stride + j` holds source element `j` of the row, or the NULL that fills it up. */
  lemma {:induction false} RowsAt<S, T>(src: Source<S>, n: nat, stride: nat, cast: S -> T, row: nat, j: nat)
    requires row < n && j < stride && Covers(src, n)
    ensures var p := Piece(src, row, cast);
            && row * stride + j < n * stride
            && Rows(src, n, stride, cast)[row * stride + j] == if j < |p| then p[j] else Null
    decreases n
  {
    hide Piece;
    MulMono(row + 1, n, stride);
    MulMono(n, n, stride);
    if row < n - 1 {
      MulMono(row + 1, n - 1, stride);
      RowsAt(src, n - 1, stride, cast, row, j);
    }
  }

  ghost function Strided<T>(child: seq<Elem<T>>, n: nat, stride: nat, j: nat, vals: seq<Elem<T>>): (r: seq<Elem<T>>)
    requires n <= |vals| && j < stride && n * stride <= |child|
    ensures |r| == |child|
  {
    if n == 0 then child
    else
      MulMono(n - 1, n, stride);
      MulMono(n, n, stride);
      Strided(child, n - 1, stride, j, vals)[(n - 1) * stride + j := vals[n - 1]]
  }

  /** Different rows own different slots. */
  lemma SlotsDiffer(a: nat, j: nat, b: nat, k: nat, stride: nat)
    requires j < stride && k < stride
    ensures a * stride + j == b * stride + k <==> a == b && j == k
  {
    if a < b {
      MulMono(a + 1, b, stride);
    } else if b < a {
      MulMono(b + 1, a, stride);
    }
  }

  /** The element update changes element `j` of each row and no other slot. */
  lemma {:induction false} StridedAt<T>(child: seq<Elem<T>>, n: nat, stride: nat, j: nat, vals: seq<Elem<T>>, row: nat,
                                        k: nat)
    requires n <= |vals| && j < stride && n * stride <= |child| && k < stride && row * stride + k < |child|
    ensures Strided(child, n, stride, j, vals)[row * stride + k]
            == if k == j && row < n then vals[row] else child[row * stride + k]
    decreases n
  {
    if n > 0 {
      MulMono(n - 1, n, stride);
      MulMono(n, n, stride);
      StridedAt(child, n - 1, stride, j, vals, row, k);
      SlotsDiffer(n - 1, j, row, k, stride);
    }
  }
}
