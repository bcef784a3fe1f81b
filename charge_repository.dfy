/** The constant table of charge policies, keyed by tool type. */
module ChargeRepository {
  import opened Domain

  // The tool-type names live in a constants file that is not part of this
  // model; any three distinct strings give the same table.
  const LADDER: string := "Ladder"
  const CHAINSAW: string := "Chainsaw"
  const JACKHAMMER: string := "Jackhammer"

  /** The policies in the order the table lists them. */
  const ChargeList: seq<Charge> := [
    Charge(LADDER, 199, true, true, false),
    Charge(CHAINSAW, 149, true, false, true),
    Charge(JACKHAMMER, 299, true, false, false)
  ]

  predicate DistinctTypes(cs: seq<Charge>)
  {
    forall i, j :: 0 <= i < j < |cs| ==> cs[i].toolType != cs[j].toolType
  }

  /** Collects the policies into a map keyed by their type, as a stream
      collected with the type as key and the policy as value. (That
      collector throws on a repeated key; the table has none, which is
      this function's precondition.) */
  function CollectByType(cs: seq<Charge>): (m: map<string, Charge>)
    requires DistinctTypes(cs)
    ensures m.Keys == set c | c in cs :: c.toolType
    ensures forall t :: t in m ==> m[t].toolType == t && m[t] in cs
  {
    if cs == [] then map[]
    else
      var rest := CollectByType(cs[..|cs| - 1]);
      var last := cs[|cs| - 1];
      assert forall c :: c in cs <==> c in cs[..|cs| - 1] || c == last;
      rest[last.toolType := last]
  }

  /** The table as a map: one entry per listed type, holding that type's
      policy. */
  function Charges(): (m: map<string, Charge>)
    ensures m.Keys == {LADDER, CHAINSAW, JACKHAMMER}
    ensures forall t :: t in m ==> m[t].toolType == t && m[t] in ChargeList
  {
    assert (set c | c in ChargeList :: c.toolType) == {LADDER, CHAINSAW, JACKHAMMER} by {
      assert ChargeList[0] in ChargeList && ChargeList[1] in ChargeList && ChargeList[2] in ChargeList;
    }
    CollectByType(ChargeList)
  }

  /** The policy of a tool type, or None (the source's null) when the type
      has no policy. */
  function GetCharge(toolType: string): (r: Option<Charge>)
    ensures r.Some? <==> toolType in {LADDER, CHAINSAW, JACKHAMMER}
    ensures r.Some? ==> r.value.toolType == toolType && r.value in ChargeList
  {
    var charges := Charges();
    if toolType in charges then Some(charges[toolType]) else None
  }

  /** The three policies of the table. */
  lemma ChargeTable()
    ensures GetCharge(LADDER) == Some(Charge(LADDER, 199, true, true, false))
    ensures GetCharge(CHAINSAW) == Some(Charge(CHAINSAW, 149, true, false, true))
    ensures GetCharge(JACKHAMMER) == Some(Charge(JACKHAMMER, 299, true, false, false))
  {
    var charges := Charges();
    assert charges[LADDER] in ChargeList;
    assert charges[CHAINSAW] in ChargeList;
    assert charges[JACKHAMMER] in ChargeList;
  }
}
