/**
 * `Range`: a half-open span [begin, end) of positions, normalised on
 * construction so that begin <= end, with structural equality, a four-way
 * partial comparison, containment tests and copy/move assignment.
 *
 * The value operations are functions on the datatype `Range`; the two
 * assignment operators, which update an object in place, are methods of the
 * class `RangeObject`.
 */
module Ranges {

  import opened Wrappers
  import Positions

  type Position = Positions.Position

  /** The stored endpoints, begin_ and end_. */
  datatype Range = Range(begin: Position, end: Position)

  /** The invariant every constructor establishes: begin <= end. */
  predicate Normalized(r: Range)
  {
    Positions.Le(r.begin, r.end)
  }

  /** std::min: the second argument only when it is strictly smaller. */
  function Min(a: Position, b: Position): (m: Position)
  {
    if Positions.Lt(b, a) then b else a
  }

  /** std::max: the second argument only when the first is strictly smaller. */
  function Max(a: Position, b: Position): (m: Position)
  {
    if Positions.Lt(a, b) then b else a
  }

  /** The constructor from two positions: it keeps both and orders them. */
  function Make(begin: Position, end: Position): (r: Range)
    ensures Normalized(r)
    ensures multiset{r.begin, r.end} == multiset{begin, end}
  {
    Range(Min(begin, end), Max(begin, end))
  }

  /** The constructor from four coordinates. */
  function FromCoordinates(bl: Positions.SizeT, bc: Positions.SizeT, el: Positions.SizeT, ec: Positions.SizeT): (r: Range)
    ensures Normalized(r)
    ensures multiset{r.begin, r.end} == multiset{Positions.Position(bl, bc), Positions.Position(el, ec)}
  {
    Make(Positions.Position(bl, bc), Positions.Position(el, ec))
  }

  /** Argument order does not matter, and ordered arguments are stored as given. */
  lemma MakeSymmetric(a: Position, b: Position)
    ensures Make(a, b) == Make(b, a)
    ensures Positions.Le(a, b) ==> Make(a, b) == Range(a, b)
  {
    Positions.CompareTotal(a, b);
  }

  /** Range{{},{}}: both endpoints are the default (greatest) position. */
  const RESET: Range := Make(Positions.DEFAULT, Positions.DEFAULT)

  lemma ResetIsSentinel()
    ensures RESET == Range(Positions.DEFAULT, Positions.DEFAULT)
    ensures forall p :: !In(RESET, p, false)
  {
  }

  /** operator==. */
  function Equals(a: Range, b: Range): (r: bool)
    ensures r <==> a == b
  {
    a.begin == b.begin && a.end == b.end
  }

  /** std::partial_ordering. */
  datatype PartialOrdering = Less | Greater | Equivalent | Unordered

  /**
   * operator<=>: less when `b` ends before `a` begins, greater when `a` ends
   * before `b` begins, equivalent for identical ranges, unordered otherwise,
   * that is for distinct ranges that overlap or touch.
   */
  function Compare(a: Range, b: Range): (r: PartialOrdering)
    ensures Normalized(a) && Normalized(b) ==> (r == Equivalent <==> a == b)
    ensures Normalized(a) && Normalized(b) ==>
              (r == Unordered <==> a != b && Positions.Le(a.begin, b.end) && Positions.Le(b.begin, a.end))
  {
    if Positions.Lt(b.end, a.begin) then Less
    else if Positions.Lt(a.end, b.begin) then Greater
    else if a.begin == b.begin && a.end == b.end then Equivalent
    else Unordered
  }

  /** Swapping the operands swaps less and greater and keeps the other two answers. */
  lemma CompareConverse(a: Range, b: Range)
    requires Normalized(a) && Normalized(b)
    ensures Compare(a, b) == Less <==> Compare(b, a) == Greater
    ensures Compare(a, b) == Greater <==> Compare(b, a) == Less
    ensures Compare(a, b) == Equivalent <==> Compare(b, a) == Equivalent
    ensures Compare(a, b) == Unordered <==> Compare(b, a) == Unordered
  {
  }

  /** less means separated: every position of `b` comes before every position of `a`. */
  lemma LessSeparates(a: Range, b: Range)
    requires Compare(a, b) == Less
    ensures forall p, q :: In(b, p, true) && In(a, q, true) ==> Positions.Lt(p, q)
  {
  }

  /** less is transitive. */
  lemma LessTransitive(a: Range, b: Range, c: Range)
    requires Normalized(b)
    requires Compare(a, b) == Less && Compare(b, c) == Less
    ensures Compare(a, c) == Less
  {
  }

  /** Worked cases: the later range is the lesser one; overlap and touching are unordered. */
  lemma CompareExamples()
    ensures Compare(FromCoordinates(0, 5, 0, 8), FromCoordinates(0, 0, 0, 2)) == Less
    ensures Compare(FromCoordinates(0, 0, 0, 5), FromCoordinates(0, 3, 0, 8)) == Unordered
    ensures Compare(FromCoordinates(0, 0, 0, 5), FromCoordinates(0, 5, 0, 8)) == Unordered
    ensures FromCoordinates(5, 5, 5, 2) == FromCoordinates(5, 2, 5, 5)
    ensures Equals(FromCoordinates(5, 2, 5, 5), FromCoordinates(5, 2, 5, 5))
  {
  }

  /**
   * in(Position): `pos` lies in [begin, end), or in [begin, end] when
   * `includeEnd` is set.
   */
  function In(r: Range, pos: Position, includeEnd: bool): (res: bool)
    ensures res <==> Positions.Key(r.begin) <= Positions.Key(pos) < Positions.Key(r.end) + (if includeEnd then 1 else 0)
  {
    Positions.Le(r.begin, pos) && (Positions.Lt(pos, r.end) || (if includeEnd then pos == r.end else false))
  }

  /** An empty range holds nothing, and with its end included only its single position. */
  lemma EmptyRangeHoldsNothing(r: Range, p: Position)
    requires r.begin == r.end
    ensures !In(r, p, false)
    ensures In(r, p, true) <==> p == r.begin
  {
    Positions.CompareTotal(p, r.begin);
  }

  /** in(Range): both endpoints of `other` are in `r`; then so is every position of `other`. */
  function Contains(r: Range, other: Range, includeEnd: bool): (res: bool)
    ensures res ==> forall p :: In(other, p, includeEnd) ==> In(r, p, includeEnd)
  {
    In(r, other.begin, includeEnd) && In(r, other.end, includeEnd)
  }

  /**
   * intersect: exactly one endpoint of `other` is in `r`. Then `r` does not
   * contain `other`, and the two are never separated. (`other` may still
   * contain `r`: the test is not symmetric.)
   */
  function Intersect(r: Range, other: Range, includeEnd: bool): (res: bool)
    ensures res ==> !Contains(r, other, includeEnd)
    ensures res && Normalized(other) ==> Compare(r, other) == Equivalent || Compare(r, other) == Unordered
  {
    In(r, other.begin, includeEnd) != In(r, other.end, includeEnd)
  }

  /**
   * intersect is not symmetric, and a nested range does not intersect: it
   * asks whether `other` straddles an end of `r`. [0,5) intersects [0,10)
   * although [0,10) contains it.
   */
  lemma IntersectExamples()
    ensures !Intersect(FromCoordinates(0, 0, 0, 5), FromCoordinates(0, 5, 0, 8), false)
    ensures Intersect(FromCoordinates(0, 5, 0, 8), FromCoordinates(0, 0, 0, 5), false)
    ensures Contains(FromCoordinates(0, 0, 0, 10), FromCoordinates(0, 2, 0, 3), false)
    ensures !Intersect(FromCoordinates(0, 0, 0, 10), FromCoordinates(0, 2, 0, 3), false)
    ensures Intersect(FromCoordinates(0, 0, 0, 5), FromCoordinates(0, 0, 0, 10), false)
    ensures Contains(FromCoordinates(0, 0, 0, 10), FromCoordinates(0, 0, 0, 5), false)
  {
  }

  /**
   * `target = std::move(source)` as the move operator is written, unfolded to
   * at most `depth` nested calls; None when that is not enough. Each call
   * copies `source` into `target`, then assigns the temporary Range{{},{}} to
   * `source`: a temporary is an rvalue, so that assignment is again the move
   * operator, with `source` as target and a new temporary as source.
   */
  function MoveAssignAsWritten(target: Range, source: Range, depth: nat): (r: Option<(Range, Range)>)
    ensures r.Some? ==> r.value == (source, RESET)
    decreases depth
  {
    if depth == 0 then None
    else
      var target' := source;
      match MoveAssignAsWritten(source, RESET, depth - 1)
      case None => None
      case Some((source', _)) => Some((target', source'))
  }

  /**
   * However many nested calls are allowed, the move operator as written never
   * returns. The evidence lies in the definition above, where each unfolding
   * re-enters the operator on `source` with a fresh temporary, as range.h:42
   * does; this lemma only confirms that no depth bound makes that end.
   */
  lemma {:induction false} MoveAssignAsWrittenNeverReturns(target: Range, source: Range, depth: nat)
    ensures MoveAssignAsWritten(target, source, depth) == None
    decreases depth
  {
    if depth > 0 {
      MoveAssignAsWrittenNeverReturns(source, RESET, depth - 1);
    }
  }

  /** A Range object, whose endpoints the assignment operators overwrite. */
  class RangeObject {
    var value: Range

    ghost predicate Valid()
      reads this
    {
      Normalized(value)
    }

    constructor (begin: Position, end: Position)
      ensures Valid() && value == Make(begin, end)
    {
      value := Make(begin, end);
    }

    /** Copy assignment: this takes other's endpoints. */
    method CopyAssign(other: RangeObject)
      requires other.Valid()
      modifies this
      ensures Valid() && value == old(other.value)
    {
      value := other.value;
    }

    /**
     * Move assignment, with the reset of `other` done by copy assignment from
     * Range{{},{}}: this takes other's old endpoints (unless both are the same
     * object) and other is reset to the default sentinels.
     */
    method MoveAssign(other: RangeObject)
      requires other.Valid()
      modifies this, other
      ensures Valid() && other.Valid()
      ensures other.value == RESET
      ensures other != this ==> value == old(other.value)
    {
      CopyAssign(other);
      var empty := new RangeObject(Positions.DEFAULT, Positions.DEFAULT);
      other.CopyAssign(empty);
    }
  }
}
