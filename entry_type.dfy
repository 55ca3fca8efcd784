/** The kind of a price level (EntryType.java) and its alias decoder. */
module EntryTypes {
  import opened Wrappers

  datatype EntryType = Ask | Bid | Spread {
    /** The alias each constant is declared with; the command line uses it. */
    function Alias(): string {
      match this
      case Ask => "ask"
      case Bid => "bid"
      case Spread => "spread"
    }

    /** The constant's name, which the enum's toString prints. */
    function Name(): string {
      match this
      case Ask => "ASK"
      case Bid => "BID"
      case Spread => "SPREAD"
    }
  }

  /** EntryType.values(), in declaration order. */
  function Values(): (vs: seq<EntryType>)
    ensures forall i, j :: 0 <= i < j < |vs| ==> vs[i] != vs[j]
  {
    [Ask, Bid, Spread]
  }

  lemma ValuesComplete(t: EntryType)
    ensures t in Values()
  {
    match t
    case Ask => assert Values()[0] == t;
    case Bid => assert Values()[1] == t;
    case Spread => assert Values()[2] == t;
  }

  /** The alias table the static initialiser fills: each constant under its alias. */
  function AliasMap(): (m: map<string, EntryType>)
    ensures forall t: EntryType :: t.Alias() in m && m[t.Alias()] == t
    ensures forall a :: a in m ==> m[a].Alias() == a
  {
    var m := map t | t in Values() :: t.Alias() := t;
    assert forall t: EntryType :: t.Alias() in m && m[t.Alias()] == t by {
      forall t: EntryType ensures t.Alias() in m && m[t.Alias()] == t {
        ValuesComplete(t);
      }
    }
    m
  }

  /** The static initialiser's loop: put every constant of values() under its alias. */
  method BuildAliasMap() returns (m: map<string, EntryType>)
    ensures m == AliasMap()
  {
    var vs := Values();
    m := map[];
    for i := 0 to |vs|
      invariant forall j :: 0 <= j < i ==> vs[j].Alias() in m && m[vs[j].Alias()] == vs[j]
      invariant forall a :: a in m ==> m[a].Alias() == a
    {
      m := m[vs[i].Alias() := vs[i]];
    }
    forall t: EntryType
      ensures t.Alias() in m && m[t.Alias()] == t
    {
      match t
      case Ask => assert vs[0] == t;
      case Bid => assert vs[1] == t;
      case Spread => assert vs[2] == t;
    }
    var spec := AliasMap();
    assert m.Keys == spec.Keys;
  }

  /** The IllegalArgumentException valueOfByAlias throws. */
  datatype AliasError = NoEnumAlias(alias: string) {
    function Message(): string {
      "No enum alias com.juniorproject.orderbook.entity.EntryType." + alias
    }
  }

  /** Exact-key lookup in the alias table; an unknown alias is an error. */
  function ValueOfByAlias(alias: string): (r: Result<EntryType, AliasError>)
    ensures r.Success? <==> exists t: EntryType :: t.Alias() == alias
    ensures r.Success? ==> r.value.Alias() == alias
    ensures r.Failure? ==> r.error == NoEnumAlias(alias)
  {
    if alias in AliasMap() then Success(AliasMap()[alias]) else Failure(NoEnumAlias(alias))
  }

  /** Decoding a constant's alias gives back that constant. */
  lemma ValueOfByAliasRoundTrip(t: EntryType)
    ensures ValueOfByAlias(t.Alias()) == Success(t)
  {
  }

  /** The lookup is case-sensitive: the constants' names are not aliases. */
  lemma ValueOfByAliasRejectsNames(t: EntryType)
    ensures ValueOfByAlias(t.Name()).Failure?
  {
    assert forall u: EntryType :: u.Alias() != t.Name();
  }
}
