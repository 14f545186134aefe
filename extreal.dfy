/** Java doubles without rounding: the reals extended with the two infinities
    and NaN, compared and added as IEEE 754 does. The controllers seed their
    running maxima with Double.NEGATIVE_INFINITY, score unvisited tree nodes
    with Double.POSITIVE_INFINITY and divide by zero visits, so all four kinds
    of value occur. */
module ExtReal {
  import opened Engine

  datatype Ext = NegInf | Fin(v: real) | PosInf | NaN

  /** IEEE `a < b`: false whenever either side is NaN. */
  predicate Less(a: Ext, b: Ext)
  {
    match a
    case NaN => false
    case NegInf => b.Fin? || b.PosInf?
    case Fin(x) => (b.Fin? && x < b.v) || b.PosInf?
    case PosInf => false
  }

  /** IEEE `a <= b`. */
  predicate AtMost(a: Ext, b: Ext)
  {
    a != NaN && b != NaN && !Less(b, a)
  }

  lemma LessTransitive(a: Ext, b: Ext, c: Ext)
    requires Less(a, b) && Less(b, c)
    ensures Less(a, c)
  {
  }

  lemma AtMostLessTransitive(a: Ext, b: Ext, c: Ext)
    requires AtMost(a, b) && Less(b, c)
    ensures Less(a, c)
  {
  }

  /** IEEE addition. */
  function Add(a: Ext, b: Ext): (r: Ext)
    ensures a.Fin? && b.Fin? ==> r == Fin(a.v + b.v)
    ensures a.NaN? || b.NaN? ==> r.NaN?
    ensures (a == NegInf && b == PosInf) || (a == PosInf && b == NegInf) ==> r.NaN?
  {
    match (a, b)
    case (NaN, _) => NaN
    case (_, NaN) => NaN
    case (NegInf, PosInf) => NaN
    case (PosInf, NegInf) => NaN
    case (NegInf, _) => NegInf
    case (_, NegInf) => NegInf
    case (PosInf, _) => PosInf
    case (_, PosInf) => PosInf
    case (Fin(x), Fin(y)) => Fin(x + y)
  }

  function Negate(a: Ext): Ext
  {
    match a
    case NegInf => PosInf
    case PosInf => NegInf
    case Fin(x) => Fin(-x)
    case NaN => NaN
  }

  /** IEEE subtraction. */
  function Sub(a: Ext, b: Ext): Ext
  {
    Add(a, Negate(b))
  }

  /** Multiplication by a positive finite constant. */
  function Scale(k: real, a: Ext): Ext
    requires k > 0.0
  {
    match a
    case Fin(x) => Fin(k * x)
    case _ => a
  }

  /** Scaling by a positive constant keeps the order of finite values. */
  lemma ScaleMonotone(k: real, a: Ext, b: Ext)
    requires k > 0.0 && Less(a, b)
    ensures Less(Scale(k, a), Scale(k, b))
  {
  }

  // ----- first-wins arg-max, as every `if (v > best) { best = v; arg = i; }` loop computes it

  /** Nothing in `vals` is above the seed value -infinity. */
  ghost predicate NoneAboveNegInf(vals: seq<Ext>)
  {
    forall j :: 0 <= j < |vals| ==> !Less(NegInf, vals[j])
  }

  /** `k` is the first position of a maximal value: it is above -infinity,
      no value is above it, and every earlier value that is not NaN is below it. */
  ghost predicate IsFirstArgMax(vals: seq<Ext>, k: int)
  {
    && 0 <= k < |vals|
    && Less(NegInf, vals[k])
    && (forall j :: 0 <= j < |vals| ==> !Less(vals[k], vals[j]))
    && (forall j :: 0 <= j < k ==> Less(vals[j], vals[k]) || vals[j] == NaN)
  }

  /** The fold a running-maximum loop performs, from position `i` on, with the
      maximum `best` and its position `arg` found so far. */
  function ArgMaxFrom(vals: seq<Ext>, i: nat, best: Ext, arg: Option<nat>): Option<nat>
    requires i <= |vals|
    decreases |vals| - i
  {
    if i == |vals| then arg
    else if Less(best, vals[i]) then ArgMaxFrom(vals, i + 1, vals[i], Some(i))
    else ArgMaxFrom(vals, i + 1, best, arg)
  }

  /** The position a running-maximum loop seeded with -infinity and `null`
      ends with. */
  function FirstArgMax(vals: seq<Ext>): Option<nat>
  {
    ArgMaxFrom(vals, 0, NegInf, None)
  }

  /** The state after `i` steps of the loop: either nothing seen beats -infinity,
      or `arg` is the first arg-max of the prefix and `best` its value. */
  ghost predicate ArgMaxInvariant(vals: seq<Ext>, i: nat, best: Ext, arg: Option<nat>)
    requires i <= |vals|
  {
    match arg
    case None => best == NegInf && NoneAboveNegInf(vals[..i])
    case Some(k) => k < i && best == vals[k] && IsFirstArgMax(vals[..i], k)
  }

  lemma ArgMaxStep(vals: seq<Ext>, i: nat, best: Ext, arg: Option<nat>)
    requires i < |vals| && ArgMaxInvariant(vals, i, best, arg)
    ensures Less(best, vals[i]) ==> ArgMaxInvariant(vals, i + 1, vals[i], Some(i))
    ensures !Less(best, vals[i]) ==> ArgMaxInvariant(vals, i + 1, best, arg)
  {
    var p, q := vals[..i], vals[..i + 1];
    assert q == p + [vals[i]];
    if Less(best, vals[i]) {
      forall j | 0 <= j < i + 1
        ensures !Less(vals[i], q[j])
        ensures j < i ==> Less(q[j], vals[i]) || q[j] == NaN
      {
        if j < i {
          assert q[j] == p[j];
          match arg
          case None =>
          case Some(k) =>
            if q[j] != NaN {
              assert !Less(vals[k], p[j]);
              assert AtMost(q[j], best);
              AtMostLessTransitive(q[j], best, vals[i]);
            }
        }
      }
      match arg
      case None =>
      case Some(k) => LessTransitive(NegInf, best, vals[i]);
    } else {
      match arg
      case None =>
        assert forall j :: 0 <= j < i ==> q[j] == p[j];
      case Some(k) =>
        assert forall j :: 0 <= j < i ==> q[j] == p[j];
        assert q[k] == vals[k];
    }
  }

  /** The fold ends in the first arg-max, or in `None` exactly when nothing is
      above -infinity. */
  lemma {:induction false} ArgMaxFromCorrect(vals: seq<Ext>, i: nat, best: Ext, arg: Option<nat>)
    requires i <= |vals| && ArgMaxInvariant(vals, i, best, arg)
    ensures match ArgMaxFrom(vals, i, best, arg)
            case None => NoneAboveNegInf(vals)
            case Some(k) => IsFirstArgMax(vals, k)
    decreases |vals| - i
  {
    if i == |vals| {
      assert vals[..i] == vals;
    } else {
      ArgMaxStep(vals, i, best, arg);
      if Less(best, vals[i]) {
        ArgMaxFromCorrect(vals, i + 1, vals[i], Some(i));
      } else {
        ArgMaxFromCorrect(vals, i + 1, best, arg);
      }
    }
  }

  /** FirstArgMax is the first position of a maximal value; it is None exactly
      when no value is above -infinity (an empty sequence, or only NaN and
      -infinity). */
  lemma FirstArgMaxCorrect(vals: seq<Ext>)
    ensures FirstArgMax(vals).None? <==> NoneAboveNegInf(vals)
    ensures FirstArgMax(vals).Some? ==> IsFirstArgMax(vals, FirstArgMax(vals).value)
  {
    assert vals[..0] == [];
    ArgMaxFromCorrect(vals, 0, NegInf, None);
    if FirstArgMax(vals).Some? {
      var k := FirstArgMax(vals).value;
      assert Less(NegInf, vals[k]);
    }
  }

  /** With no NaN and no -infinity among them, a non-empty list of values
      always has a first arg-max. */
  lemma FirstArgMaxExists(vals: seq<Ext>)
    requires |vals| > 0
    requires forall j :: 0 <= j < |vals| ==> vals[j].Fin? || vals[j].PosInf?
    ensures FirstArgMax(vals).Some?
  {
    FirstArgMaxCorrect(vals);
    assert Less(NegInf, vals[0]);
  }

  /** The first +infinity wins: if `k` is the first infinite value, it is the
      arg-max whatever the finite values are. */
  lemma FirstInfinityWins(vals: seq<Ext>, k: nat)
    requires k < |vals| && vals[k] == PosInf
    requires forall j :: 0 <= j < k ==> vals[j].Fin?
    ensures FirstArgMax(vals) == Some(k)
  {
    FirstArgMaxCorrect(vals);
    assert Less(NegInf, vals[k]);
    var r := FirstArgMax(vals).value;
    assert !Less(vals[r], vals[k]);
  }

  /** At most one position is the first arg-max. */
  lemma FirstArgMaxUnique(vals: seq<Ext>, k: int, l: int)
    requires IsFirstArgMax(vals, k) && IsFirstArgMax(vals, l)
    ensures k == l
  {
  }
}
