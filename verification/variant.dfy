/** A Variant definition: a class derived from `Variant`, whose body declares
    named text constants. The class is a `str` enumeration, so each constant
    becomes a member that is at the same time an enum member and a `str`. */
module Variant {
  import opened Wrappers

  /** One constant of a class body: `NAME = "value"`. */
  datatype Entry = Entry(name: string, value: string)

  /** A concrete Variant class: its class name and its constants in
      declaration order. */
  datatype Def = Def(name: string, entries: seq<Entry>)

  /** An enum member: bound to the class that declared it and carrying one of
      its (name, value) pairs. Its `str` content is `value`. */
  datatype Member = Member(owner: Def, name: string, value: string)

  /** Some constant among the first `n` of `d` has text `s`. */
  predicate DeclaredBefore(d: Def, n: nat, s: string)
  {
    exists i :: 0 <= i < n && i < |d.entries| && d.entries[i].value == s
  }

  /** Some constant of `d` has text `s`: `s` is congruent with `d`. */
  predicate Declares(d: Def, s: string)
  {
    DeclaredBefore(d, |d.entries|, s)
  }

  /** The `i`-th constant is an alias: an earlier constant has the same text. */
  predicate IsAliasAt(d: Def, i: nat)
    requires i < |d.entries|
  {
    DeclaredBefore(d, i, d.entries[i].value)
  }

  /** None of the first `n` constants is an alias. */
  predicate NoAliasesBefore(d: Def, n: nat)
  {
    forall i :: 0 <= i < n && i < |d.entries| ==> !IsAliasAt(d, i)
  }

  /** No constant of `d` is an alias, so every constant makes its own member. */
  predicate NoAliases(d: Def)
  {
    NoAliasesBefore(d, |d.entries|)
  }

  /** No name is bound twice. A class body that reuses a name is refused with
      a `TypeError` before the class exists, so every Variant class has this. */
  predicate NamesDistinct(d: Def)
  {
    forall i, j :: 0 <= i < j < |d.entries| ==> d.entries[i].name != d.entries[j].name
  }

  /** A definition has no aliases exactly when its values are pairwise
      distinct. */
  lemma {:induction false} NoAliasesIffDistinct(d: Def)
    ensures NoAliases(d) <==> forall i, j :: 0 <= i < j < |d.entries| ==> d.entries[i].value != d.entries[j].value
  {
    if NoAliases(d) {
      forall i, j | 0 <= i < j < |d.entries|
        ensures d.entries[i].value != d.entries[j].value
      {
        assert !IsAliasAt(d, j);
      }
    }
    if forall i, j :: 0 <= i < j < |d.entries| ==> d.entries[i].value != d.entries[j].value {
      forall j | 0 <= j < |d.entries|
        ensures !IsAliasAt(d, j)
      {
      }
    }
  }

  /** The `i`-th constant makes the member `m`: `m` carries its pair, belongs to
      `d`, and no earlier constant has the same text. */
  predicate MadeAt(m: Member, d: Def, i: nat)
  {
    && m.owner == d
    && i < |d.entries|
    && d.entries[i] == Entry(m.name, m.value)
    && !IsAliasAt(d, i)
  }

  /** `m` is one of the members of `d`. An alias constant makes no member of
      its own: its name is bound to the member of the first constant with the
      same text. */
  predicate IsMemberOf(m: Member, d: Def)
  {
    exists i: nat :: i < |d.entries| && MadeAt(m, d, i)
  }

  /** The member created for the `i`-th constant. */
  function MemberAt(d: Def, i: nat): Member
    requires i < |d.entries|
  {
    Member(d, d.entries[i].name, d.entries[i].value)
  }

  /** A member of `d` is determined by its value. */
  lemma MemberDeterminedByValue(d: Def, m1: Member, m2: Member)
    requires IsMemberOf(m1, d) && IsMemberOf(m2, d)
    requires m1.value == m2.value
    ensures m1 == m2
  {
    var i: nat :| i < |d.entries| && MadeAt(m1, d, i);
    var j: nat :| j < |d.entries| && MadeAt(m2, d, j);
    assert i == j;
  }

  /** The members made by the first `n` constants, in declaration order: every
      constant that is not an alias contributes one member. */
  function MembersBefore(d: Def, n: nat): (ms: seq<Member>)
    requires n <= |d.entries|
    ensures forall m :: m in ms <==> exists i: nat :: i < n && MadeAt(m, d, i)
    ensures forall i, j :: 0 <= i < j < |ms| ==> ms[i].value != ms[j].value
    ensures |ms| <= n
    ensures |ms| == n <==> NoAliasesBefore(d, n)
    ensures NoAliasesBefore(d, n) ==> forall i :: 0 <= i < n ==> ms[i] == MemberAt(d, i)
  {
    if n == 0 then []
    else
      var prev := MembersBefore(d, n - 1);
      if IsAliasAt(d, n - 1) then
        assert !NoAliasesBefore(d, n);
        prev
      else
        assert MadeAt(MemberAt(d, n - 1), d, n - 1);
        assert forall m :: m in prev ==> m.value != d.entries[n - 1].value by {
          forall m | m in prev
            ensures m.value != d.entries[n - 1].value
          {
            var i: nat :| i < n - 1 && MadeAt(m, d, i);
          }
        }
        prev + [MemberAt(d, n - 1)]
  }

  /** Iterating over the class: every member once, in declaration order,
      aliases skipped. */
  function Members(d: Def): (ms: seq<Member>)
    ensures forall m :: m in ms <==> IsMemberOf(m, d)
    ensures forall i, j :: 0 <= i < j < |ms| ==> ms[i] != ms[j]
    ensures NoAliases(d) ==> |ms| == |d.entries| && forall i :: 0 <= i < |ms| ==> ms[i] == MemberAt(d, i)
  {
    MembersBefore(d, |d.entries|)
  }

  /** `len(cls)`: the number of members iteration yields. It is the number of
      distinct declared values, and falls short of the number of constants
      exactly when some constant is an alias. */
  function Count(d: Def): (n: nat)
    ensures n <= |d.entries|
    ensures n == |d.entries| <==> NoAliases(d)
  {
    |Members(d)|
  }

  /** The value-to-member table the enumeration builds when the class is
      created, over its first `n` constants, in declaration order. A value seen
      again keeps its first member, as Python's enum does for an alias. */
  function ValueMapOf(d: Def, n: nat): (r: map<string, Member>)
    requires n <= |d.entries|
    ensures forall s :: s in r <==> DeclaredBefore(d, n, s)
    ensures forall s :: s in r ==> IsMemberOf(r[s], d) && r[s].value == s
  {
    if n == 0 then map[]
    else
      var m := ValueMapOf(d, n - 1);
      var e := d.entries[n - 1];
      if e.value in m then m
      else
        assert MadeAt(MemberAt(d, n - 1), d, n - 1);
        m[e.value := MemberAt(d, n - 1)]
  }

  /** The table `_value2member_map_` of the class. */
  function ValueMap(d: Def): (r: map<string, Member>)
    ensures forall s :: s in r <==> Declares(d, s)
    ensures forall s :: s in r ==> IsMemberOf(r[s], d) && r[s].value == s
  {
    ValueMapOf(d, |d.entries|)
  }

  /** How many of the first `n` constants are not aliases. */
  function FreshBefore(d: Def, n: nat): nat
    requires n <= |d.entries|
  {
    if n == 0 then 0
    else FreshBefore(d, n - 1) + (if IsAliasAt(d, n - 1) then 0 else 1)
  }

  /** Iteration over the first `n` constants yields one member per constant
      that is not an alias. */
  lemma {:induction false} MembersBeforeCount(d: Def, n: nat)
    requires n <= |d.entries|
    ensures |MembersBefore(d, n)| == FreshBefore(d, n)
  {
    if n > 0 {
      MembersBeforeCount(d, n - 1);
    }
  }

  /** The value table over the first `n` constants has one key per constant
      that is not an alias. */
  lemma ValueMapCount(d: Def, n: nat)
    requires n <= |d.entries|
    ensures |ValueMapOf(d, n)| == FreshBefore(d, n)
  {
  }

  /** The `n`-th constant adds a key to the value table exactly when it is
      not an alias. */
  lemma ValueMapStep(d: Def, n: nat)
    requires 0 < n <= |d.entries|
    ensures |ValueMapOf(d, n)| == |ValueMapOf(d, n - 1)| + (if IsAliasAt(d, n - 1) then 0 else 1)
  {
    var m, v := ValueMapOf(d, n - 1), d.entries[n - 1].value;
    if v in m {
      assert IsAliasAt(d, n - 1);
    } else {
      assert ValueMapOf(d, n) == m[v := MemberAt(d, n - 1)];
    }
  }

  /** `len(cls)` is the number of distinct declared values, the size of the
      table `_value2member_map_`. */
  lemma CountIsTableSize(d: Def)
    ensures Count(d) == |ValueMap(d)|
  {
    MembersBeforeCount(d, |d.entries|);
    ValueMapCount(d, |d.entries|);
  }

  /** `cls(s)`: the member whose value is `s`, looked up in the precomputed
      table; `None` where Python raises `ValueError`. */
  function FromValue(d: Def, s: string): (r: Option<Member>)
    ensures r.None? <==> !Declares(d, s)
    ensures r.Some? ==> IsMemberOf(r.value, d) && r.value.value == s
  {
    if s in ValueMap(d) then Some(ValueMap(d)[s]) else None
  }

  /** Lookup by value inverts the member's value: `cls(m.value) is m`. */
  lemma FromValueRoundTrip(d: Def, m: Member)
    requires IsMemberOf(m, d)
    ensures FromValue(d, m.value) == Some(m)
  {
    var i: nat :| i < |d.entries| && MadeAt(m, d, i);
    assert DeclaredBefore(d, |d.entries|, m.value);
    MemberDeterminedByValue(d, FromValue(d, m.value).value, m);
  }

  /** `k` is the first index from `i` on whose constant is named `name`. */
  predicate FirstNamedFrom(d: Def, name: string, i: nat, k: nat)
  {
    && i <= k < |d.entries|
    && d.entries[k].name == name
    && forall j :: i <= j < k ==> d.entries[j].name != name
  }

  /** The lookup of a name among the constants from index `i` on: the index
      of the first constant bound to it. */
  function NameIndexFrom(d: Def, name: string, i: nat): (r: Option<nat>)
    requires i <= |d.entries|
    ensures r.None? <==> forall j :: i <= j < |d.entries| ==> d.entries[j].name != name
    ensures r.Some? ==> FirstNamedFrom(d, name, i, r.value)
    decreases |d.entries| - i
  {
    if i == |d.entries| then None
    else if d.entries[i].name == name then Some(i)
    else NameIndexFrom(d, name, i + 1)
  }

  /** `cls[name]`, the lookup in the enumeration's name table; `None` where
      Python raises `KeyError`. For every name the class body declares,
      `cls.NAME` gives the same member. The name of an alias is bound to the
      member of the first constant with the same text. */
  function ByName(d: Def, name: string): (r: Option<Member>)
    ensures r.None? <==> forall j :: 0 <= j < |d.entries| ==> d.entries[j].name != name
    ensures r.Some? ==> exists k: nat :: FirstNamedFrom(d, name, 0, k) && r == FromValue(d, d.entries[k].value)
    ensures r.Some? ==> IsMemberOf(r.value, d)
  {
    match NameIndexFrom(d, name, 0)
    case None => None
    case Some(k) =>
      assert DeclaredBefore(d, |d.entries|, d.entries[k].value);
      FromValue(d, d.entries[k].value)
  }

  /** Every name of the class body reaches the member that owns the text bound
      to it: the constant's own member, or, for an alias, the member of the
      first constant with the same text. */
  lemma ByNameResolvesAlias(d: Def, i: nat)
    requires NamesDistinct(d) && i < |d.entries|
    ensures ByName(d, d.entries[i].name) == FromValue(d, d.entries[i].value)
    ensures ByName(d, d.entries[i].name).Some?
  {
    var r := ByName(d, d.entries[i].name);
    assert r.Some?;
    var k: nat :| FirstNamedFrom(d, d.entries[i].name, 0, k) && r == FromValue(d, d.entries[k].value);
    assert k == i;
  }

  /** Access by name reaches exactly the member declared under that name. */
  lemma ByNameRoundTrip(d: Def, m: Member)
    requires NamesDistinct(d) && IsMemberOf(m, d)
    ensures ByName(d, m.name) == Some(m)
  {
    var i: nat :| i < |d.entries| && MadeAt(m, d, i);
    ByNameResolvesAlias(d, i);
    FromValueRoundTrip(d, m);
  }

  /** `str(m)`: the overridden `__str__` returns the member's value. For a
      member of its own class the rendered text is a faithful serialization:
      looking it up gives the member back. */
  function Render(m: Member): (r: string)
    ensures IsMemberOf(m, m.owner) ==> FromValue(m.owner, r) == Some(m)
  {
    m.value
  }

  /** Rendering carries neither the class name nor the member name: two members
      render alike exactly when their values agree, whatever their owners. */
  lemma RenderIgnoresOwnerAndName(m1: Member, m2: Member)
    ensures Render(m1) == Render(m2) <==> m1.value == m2.value
  {
  }
}
