/** The Python values a membership test can be handed, their classes, and the
    `str` behaviour a Variant member inherits by deriving from `str`. */
module Values {
  import opened Wrappers
  import opened Variant
  import opened Text

  /** A Python value: raw text, an enum member of some Variant class, or a
      value of another built-in kind (containers hold values in turn). */
  datatype Val =
    | Raw(text: string)
    | Enum(member: Member)
    | Int(n: int)
    | Bool(b: bool)
    | Null
    | List(elems: seq<Val>)
    | Dict(pairs: seq<(Val, Val)>)

  /** The runtime class of a value; `VariantClass(d)` is the class `d` itself. */
  datatype Class = StrClass | VariantClass(def: Def) | IntClass | BoolClass | NoneType | ListClass | DictClass

  function ClassOf(v: Val): Class
  {
    match v
    case Raw(_) => StrClass
    case Enum(m) => VariantClass(m.owner)
    case Int(_) => IntClass
    case Bool(_) => BoolClass
    case Null => NoneType
    case List(_) => ListClass
    case Dict(_) => DictClass
  }

  /** `issubclass(c, base)`: every Variant class derives from `str`, and `bool`
      derives from `int`. */
  predicate IsSubclass(c: Class, base: Class)
  {
    c == base || (c.VariantClass? && base == StrClass) || (c == BoolClass && base == IntClass)
  }

  /** `isinstance(v, str)`. */
  predicate IsStr(v: Val)
  {
    IsSubclass(ClassOf(v), StrClass)
  }

  /** The code points a `str` instance holds: a member holds its value. */
  function TextOf(v: Val): string
    requires IsStr(v)
  {
    if v.Raw? then v.text else v.member.value
  }

  /** A number: an `int`, or a `bool`, which Python treats as 0 or 1. */
  predicate IsNumber(v: Val)
  {
    v.Int? || v.Bool?
  }

  function NumberOf(v: Val): int
    requires IsNumber(v)
  {
    if v.Int? then v.n else if v.b then 1 else 0
  }

  /** A size for values, which the elements of a container are below. */
  function Size(v: Val): (n: nat)
    ensures n >= 1
  {
    match v
    case List(es) => 1 + SizeOfSeq(es)
    case Dict(ps) => 1 + SizeOfPairs(ps)
    case _ => 1
  }

  function SizeOfSeq(es: seq<Val>): (n: nat)
    ensures forall i :: 0 <= i < |es| ==> Size(es[i]) <= n
  {
    if |es| == 0 then 0
    else
      assert forall i :: 1 <= i < |es| ==> es[i] == es[1..][i - 1];
      Size(es[0]) + SizeOfSeq(es[1..])
  }

  function SizeOfPairs(ps: seq<(Val, Val)>): (n: nat)
    ensures forall i :: 0 <= i < |ps| ==> SizeOfPair(ps[i]) <= n
  {
    if |ps| == 0 then 0
    else
      assert forall i :: 1 <= i < |ps| ==> ps[i] == ps[1..][i - 1];
      SizeOfPair(ps[0]) + SizeOfPairs(ps[1..])
  }

  function SizeOfPair(p: (Val, Val)): nat
  {
    Size(p.0) + Size(p.1)
  }

  /** `type(x).__eq__(x, y)`, with `None` standing for `NotImplemented`.
      `str.__eq__` compares contents and declines anything that is not a `str`;
      a Variant class inherits it unchanged. `int.__eq__`, which `bool`
      inherits, compares numbers. `None` has only `object.__eq__`, which holds
      of `None` itself and declines the rest. `list.__eq__` compares lengths,
      then elements pairwise with `==`; `dict.__eq__` compares sizes, then
      every key's value with `==`. */
  function Slot(x: Val, y: Val): (r: Option<bool>)
    decreases Size(x) + Size(y), 1
  {
    if IsStr(x) then (if IsStr(y) then Some(TextOf(x) == TextOf(y)) else None)
    else if IsNumber(x) then (if IsNumber(y) then Some(NumberOf(x) == NumberOf(y)) else None)
    else match x
      case Null => if y.Null? then Some(true) else None
      case List(xs) => if y.List? then Some(ListEq(xs, y.elems)) else None
      case Dict(xps) => if y.Dict? then Some(DictEq(xps, y.pairs)) else None
      case _ => None
  }

  /** `list.__eq__`: equal lengths and pairwise equal elements. */
  predicate ListEq(xs: seq<Val>, ys: seq<Val>)
    decreases SizeOfSeq(xs) + SizeOfSeq(ys), 4
  {
    |xs| == |ys| && forall i | 0 <= i < |xs| :: PyEq(xs[i], ys[i])
  }

  /** `dict.__eq__`: equal sizes, and every entry of either side has an entry
      with an equal key and an equal value on the other. */
  predicate DictEq(xps: seq<(Val, Val)>, yps: seq<(Val, Val)>)
    decreases SizeOfPairs(xps) + SizeOfPairs(yps), 5
  {
    |xps| == |yps| && Covers(xps, yps) && CoveredBy(xps, yps)
  }

  /** Every entry of `xps` has an agreeing entry in `yps`. */
  predicate Covers(xps: seq<(Val, Val)>, yps: seq<(Val, Val)>)
    decreases SizeOfPairs(xps) + SizeOfPairs(yps), 4
  {
    forall i | 0 <= i < |xps| :: Matched(xps[i], yps)
  }

  /** Every entry of `yps` has an agreeing entry in `xps`. */
  predicate CoveredBy(xps: seq<(Val, Val)>, yps: seq<(Val, Val)>)
    decreases SizeOfPairs(xps) + SizeOfPairs(yps), 4
  {
    forall j | 0 <= j < |yps| :: MatchedBy(xps, yps[j])
  }

  /** Some entry of `ps` agrees with `p`, `p` on the left. */
  predicate Matched(p: (Val, Val), ps: seq<(Val, Val)>)
    decreases SizeOfPair(p) + SizeOfPairs(ps), 2
  {
    exists j | 0 <= j < |ps| :: PairEq(p, ps[j])
  }

  /** Some entry of `ps` agrees with `q`, `q` on the right. */
  predicate MatchedBy(ps: seq<(Val, Val)>, q: (Val, Val))
    decreases SizeOfPairs(ps) + SizeOfPair(q), 2
  {
    exists i | 0 <= i < |ps| :: PairEq(ps[i], q)
  }

  /** Two dictionary entries agree: equal keys bound to equal values. */
  predicate PairEq(p: (Val, Val), q: (Val, Val))
    decreases SizeOfPair(p) + SizeOfPair(q), 1
  {
    PyEq(p.0, q.0) && PyEq(p.1, q.1)
  }

  /** The right operand's `__eq__` is asked first: its class is a proper
      subclass of the left operand's, as a Variant class is of `str`. */
  predicate ReflectedFirst(a: Val, b: Val)
  {
    ClassOf(a) != ClassOf(b) && IsSubclass(ClassOf(b), ClassOf(a))
  }

  /** `a == b`: the left operand's `__eq__` first and then the reflected one,
      except that a right operand of a proper subclass is asked first; when
      both return `NotImplemented`, identity, which two distinct objects never
      share. A `str` thus equals exactly the `str` instances with the same
      text, members included, and nothing of another kind. */
  function PyEq(a: Val, b: Val): (r: bool)
    ensures IsStr(a) && IsStr(b) ==> (r <==> TextOf(a) == TextOf(b))
    ensures IsStr(a) != IsStr(b) ==> !r
    decreases Size(a) + Size(b), 2
  {
    var (first, second) := if ReflectedFirst(a, b) then (b, a) else (a, b);
    match Slot(first, second)
    case Some(x) => x
    case None =>
      match Slot(second, first)
      case Some(x) => x
      case None => false
  }

  /** `==` does not depend on the order of its operands, containers included. */
  lemma {:induction false} PyEqSymmetric(a: Val, b: Val)
    ensures PyEq(a, b) == PyEq(b, a)
    decreases Size(a) + Size(b)
  {
    if a.List? && b.List? {
      if |a.elems| == |b.elems| {
        forall i | 0 <= i < |a.elems|
          ensures PyEq(a.elems[i], b.elems[i]) == PyEq(b.elems[i], a.elems[i])
        {
          PyEqSymmetric(a.elems[i], b.elems[i]);
        }
      }
      ListSlotsAgree(a, b);
    } else if a.Dict? && b.Dict? {
      forall i, j | 0 <= i < |a.pairs| && 0 <= j < |b.pairs|
        ensures PairEq(a.pairs[i], b.pairs[j]) == PairEq(b.pairs[j], a.pairs[i])
      {
        PyEqSymmetric(a.pairs[i].0, b.pairs[j].0);
        PyEqSymmetric(a.pairs[i].1, b.pairs[j].1);
      }
      DictSlotsAgree(a, b);
    }
  }

  /** Two lists whose elements compare alike from either side compare alike. */
  lemma ListSlotsAgree(a: Val, b: Val)
    requires a.List? && b.List?
    requires |a.elems| == |b.elems| ==>
      forall i | 0 <= i < |a.elems| :: PyEq(a.elems[i], b.elems[i]) == PyEq(b.elems[i], a.elems[i])
    ensures Slot(a, b) == Slot(b, a)
  {
    assert ListEq(a.elems, b.elems) == ListEq(b.elems, a.elems);
  }

  /** Two dictionaries whose entries compare alike from either side compare
      alike. */
  lemma DictSlotsAgree(a: Val, b: Val)
    requires a.Dict? && b.Dict?
    requires forall i, j | 0 <= i < |a.pairs| && 0 <= j < |b.pairs| :: PairEq(a.pairs[i], b.pairs[j]) == PairEq(b.pairs[j], a.pairs[i])
    ensures Slot(a, b) == Slot(b, a)
  {
    DictEqSymmetric(a.pairs, b.pairs);
  }

  /** Dictionary equality does not depend on the order of its operands once
      their entries compare alike from either side. */
  lemma DictEqSymmetric(xps: seq<(Val, Val)>, yps: seq<(Val, Val)>)
    requires forall i, j | 0 <= i < |xps| && 0 <= j < |yps| :: PairEq(xps[i], yps[j]) == PairEq(yps[j], xps[i])
    ensures DictEq(xps, yps) == DictEq(yps, xps)
  {
    CoversFlip(xps, yps);
  }

  /** With entries that agree from either side, covering and being covered
      are the same relation read backwards. */
  lemma CoversFlip(xps: seq<(Val, Val)>, yps: seq<(Val, Val)>)
    requires forall i, j | 0 <= i < |xps| && 0 <= j < |yps| :: PairEq(xps[i], yps[j]) == PairEq(yps[j], xps[i])
    ensures Covers(xps, yps) <==> CoveredBy(yps, xps)
    ensures Covers(yps, xps) <==> CoveredBy(xps, yps)
  {
    forall i | 0 <= i < |xps|
      ensures Matched(xps[i], yps) <==> MatchedBy(yps, xps[i])
    {
      if Matched(xps[i], yps) {
        var j :| 0 <= j < |yps| && PairEq(xps[i], yps[j]);
        assert PairEq(yps[j], xps[i]);
      }
      if MatchedBy(yps, xps[i]) {
        var j :| 0 <= j < |yps| && PairEq(yps[j], xps[i]);
        assert PairEq(xps[i], yps[j]);
      }
    }
    forall j | 0 <= j < |yps|
      ensures Matched(yps[j], xps) <==> MatchedBy(xps, yps[j])
    {
      if Matched(yps[j], xps) {
        var i :| 0 <= i < |xps| && PairEq(yps[j], xps[i]);
        assert PairEq(xps[i], yps[j]);
      }
      if MatchedBy(xps, yps[j]) {
        var i :| 0 <= i < |xps| && PairEq(xps[i], yps[j]);
        assert PairEq(yps[j], xps[i]);
      }
    }
  }

  /** A member equals raw text exactly when the texts are identical, whichever
      side it stands on. */
  lemma MemberEqualsRaw(m: Member, s: string)
    ensures PyEq(Enum(m), Raw(s)) <==> m.value == s
    ensures PyEq(Raw(s), Enum(m)) <==> m.value == s
  {
  }

  /** Two different members of one class are never equal. */
  lemma DistinctMembersUnequal(d: Def, m1: Member, m2: Member)
    requires IsMemberOf(m1, d) && IsMemberOf(m2, d) && m1 != m2
    ensures !PyEq(Enum(m1), Enum(m2))
  {
    if m1.value == m2.value {
      MemberDeterminedByValue(d, m1, m2);
    }
  }

  /** Members are compared as `str`, so members of different classes with the
      same value are equal and nothing about their owners is consulted. */
  lemma CrossDefinitionMembersEqual(m1: Member, m2: Member)
    ensures PyEq(Enum(m1), Enum(m2)) <==> m1.value == m2.value
  {
  }

  /** A `str` never equals a value of another kind, from either side. */
  lemma TextNeverEqualsOtherKinds(a: Val, b: Val)
    requires IsStr(a) && !IsStr(b)
    ensures !PyEq(a, b) && !PyEq(b, a)
  {
  }

  /** `v.startswith(p)`, `v.endswith(p)`, `p in v` on a `str` instance. */
  predicate StartsWithV(v: Val, p: string)
    requires IsStr(v)
  {
    StartsWith(TextOf(v), p)
  }

  predicate EndsWithV(v: Val, p: string)
    requires IsStr(v)
  {
    EndsWith(TextOf(v), p)
  }

  predicate ContainsV(v: Val, p: string)
    requires IsStr(v)
  {
    Contains(TextOf(v), p)
  }

  /** `v.replace(target, repl)`: the result is a plain `str`, never a member,
      whether or not the new text is some member's value. */
  function ReplaceV(v: Val, target: string, repl: string): (r: Val)
    requires IsStr(v)
    ensures ClassOf(r) == StrClass
  {
    Raw(Replace(TextOf(v), target, repl))
  }

  /** Any other `str` method that builds a new string, such as `upper` or
      `lower`, given as the text function `f` it computes. The result is a plain
      `str`. */
  function MapText(v: Val, f: string -> string): (r: Val)
    requires IsStr(v)
    ensures ClassOf(r) == StrClass
  {
    Raw(f(TextOf(v)))
  }

  /** Text queries and text-building methods respect `==` between `str`
      instances: equal operands give the same answers and the same plain `str`.
      In particular a member behaves exactly like its value. */
  lemma TextOpsRespectEquality(v: Val, w: Val, p: string, target: string, repl: string, f: string -> string)
    requires IsStr(v) && IsStr(w) && PyEq(v, w)
    ensures StartsWithV(v, p) == StartsWithV(w, p)
    ensures EndsWithV(v, p) == EndsWithV(w, p)
    ensures ContainsV(v, p) == ContainsV(w, p)
    ensures ReplaceV(v, target, repl) == ReplaceV(w, target, repl)
    ensures MapText(v, f) == MapText(w, f)
  {
  }

  /** Replacing text on a member that does not contain the target gives its value
      back, as plain text; replacing its whole value gives the replacement. */
  lemma MemberReplaceCases(m: Member, target: string, repl: string)
    ensures |target| > 0 && !Contains(m.value, target) ==> ReplaceV(Enum(m), target, repl) == Raw(m.value)
    ensures ReplaceV(Enum(m), m.value, repl) == Raw(repl)
  {
    ReplaceWhole(m.value, repl);
  }
}
