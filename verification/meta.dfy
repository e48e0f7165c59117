/** The membership test of a Variant class: the metaclass hook that makes
    `isinstance(v, cls)` accept raw text equal to one of the class's values. */
module Meta {
  import opened Variant
  import opened Values

  /** `isinstance(v, d)`. A `str` instance, member or not, is looked up by its
      text in the value table; anything else gets the ordinary nominal check,
      which asks whether the value's class derives from `d`. */
  function IsInstance(v: Val, d: Def): (r: bool)
    ensures r <==> IsStr(v) && Declares(d, TextOf(v))
  {
    if IsStr(v) then TextOf(v) in ValueMap(d)
    else IsSubclass(ClassOf(v), VariantClass(d))
  }

  /** Raw text is accepted exactly when it is one of the declared values. */
  lemma RawAcceptedIffDeclared(s: string, d: Def)
    ensures IsInstance(Raw(s), d) <==> Declares(d, s)
  {
  }

  /** Every member passes the check of its own class. */
  lemma MemberAcceptedByOwner(m: Member, d: Def)
    requires IsMemberOf(m, d)
    ensures IsInstance(Enum(m), d)
  {
    var i: nat :| i < |d.entries| && MadeAt(m, d, i);
    assert d.entries[i].value == m.value;
  }

  /** The raw value of every member passes the check of its class. */
  lemma MemberValueAccepted(m: Member, d: Def)
    requires IsMemberOf(m, d)
    ensures IsInstance(Raw(m.value), d)
  {
    var i: nat :| i < |d.entries| && MadeAt(m, d, i);
    assert d.entries[i].value == m.value;
  }

  /** Whatever class a member comes from, it is judged by its text alone: it
      passes exactly when its value would. */
  lemma ForeignMemberDecidedByText(m: Member, d: Def)
    ensures IsInstance(Enum(m), d) == IsInstance(Raw(m.value), d)
    ensures IsInstance(Enum(m), d) <==> Declares(d, m.value)
  {
  }

  /** No value outside `str` passes, whatever it contains. */
  lemma NonTextRejected(v: Val, d: Def)
    requires !IsStr(v)
    ensures !IsInstance(v, d)
  {
  }

  /** The nominal branch can never succeed: whatever derives from a Variant
      class is a `str` and is decided by the text branch instead. */
  lemma NominalCheckImpliesStr(v: Val, d: Def)
    ensures IsSubclass(ClassOf(v), VariantClass(d)) ==> IsStr(v)
  {
  }

  /** The check agrees with lookup by value: text passes exactly when the class
      can be built from it. */
  lemma IsInstanceIffFromValue(v: Val, d: Def)
    requires IsStr(v)
    ensures IsInstance(v, d) <==> FromValue(d, TextOf(v)).Some?
  {
  }

  /** The check agrees with iteration: a value passes exactly when it is a `str`
      whose text is the value of some member the class iterates over. */
  lemma IsInstanceIffSomeMember(v: Val, d: Def)
    ensures IsInstance(v, d) <==> IsStr(v) && exists m :: m in Members(d) && m.value == TextOf(v)
  {
    if IsInstance(v, d) {
      assert FromValue(d, TextOf(v)).value in Members(d);
    }
    if IsStr(v) && exists m :: m in Members(d) && m.value == TextOf(v) {
      var m :| m in Members(d) && m.value == TextOf(v);
      MemberValueAccepted(m, d);
    }
  }

  /** Every member iteration yields passes the check both as itself and as its
      raw value. */
  lemma IteratedMembersAccepted(d: Def)
    ensures forall m :: m in Members(d) ==> IsInstance(Enum(m), d) && IsInstance(Raw(m.value), d)
  {
    forall m | m in Members(d)
      ensures IsInstance(Enum(m), d) && IsInstance(Raw(m.value), d)
    {
      MemberAcceptedByOwner(m, d);
      MemberValueAccepted(m, d);
    }
  }
}
