/**
 Admitting evidence within a budget under stable identifiers: `assign_evidence` of
 corrective_rag.py, called once and again with the same registry.
 */
module EvidenceRegistry {
  import opened Basics
  import opened Decimals

  /** What tells records apart; a record without a comparable identity gets a token of its own. */
  datatype Token = Native(identity: string) | Opaque(serial: nat)

  datatype Item = Item(identity: Option<string>, deleted: bool, text: string)

  datatype Fate = Deleted | Empty | Duplicate | Dropped | Admitted(token: Token)

  /** The state of one call: the registry, the tokens made so far, what was admitted, the size used. */
  datatype Round = Round(registry: map<Token, string>, minted: nat, seen: set<Token>, used: nat)

  function EvidenceName(n: nat): string
  {
    "E" + Decimal(n)
  }

  lemma NamesDiffer(m: nat, n: nat)
    requires EvidenceName(m) == EvidenceName(n)
    ensures m == n
  {
    assert Decimal(m) == EvidenceName(m)[1..] && Decimal(n) == EvidenceName(n)[1..];
    DecimalsDiffer(m, n);
  }

  function TokenOf(item: Item, minted: nat): Token
  {
    if item.identity.Some? then Native(item.identity.value) else Opaque(minted)
  }

  function FateOf(item: Item, r: Round, budget: nat): Fate
  {
    if item.deleted then Deleted
    else if Blank(item.text) then Empty
    else if TokenOf(item, r.minted) in r.seen then Duplicate
    else if r.used + |item.text| > budget then Dropped
    else Admitted(TokenOf(item, r.minted))
  }

  function After(item: Item, r: Round, budget: nat): Round
  {
    var fate := FateOf(item, r, budget);
    var minted := if item.identity.None? then r.minted + 1 else r.minted;
    if !fate.Admitted? then r.(minted := minted) else
    Round(if fate.token in r.registry then r.registry
          else r.registry[fate.token := EvidenceName(|r.registry| + 1)],
          minted, r.seen + {fate.token}, r.used + |item.text|)
  }

  /** The states before each item and after the last. */
  function States(items: seq<Item>, r: Round, budget: nat): (states: seq<Round>)
    ensures |states| == |items| + 1 && states[0] == r
    ensures forall i | 0 <= i < |items| :: states[i + 1] == After(items[i], states[i], budget)
  {
    if items == [] then [r] else [r] + States(items[1..], After(items[0], r, budget), budget)
  }

  function Fates(items: seq<Item>, r: Round, budget: nat): (fates: seq<Fate>)
    ensures |fates| == |items|
  {
    var states := States(items, r, budget);
    seq(|items|, i requires 0 <= i < |items| => FateOf(items[i], states[i], budget))
  }

  function Last(items: seq<Item>, r: Round, budget: nat): Round
  {
    States(items, r, budget)[|items|]
  }

  /* ---- the registry ---- */

  /** The names are E1, E2, ... in the order of registration, each once. */
  ghost predicate Numbered(registry: map<Token, string>, minted: nat)
  {
    && (forall t | t in registry :: exists n | 1 <= n <= |registry| :: registry[t] == EvidenceName(n))
    && (forall t, u | t in registry && u in registry && registry[t] == registry[u] :: t == u)
    && (forall t | t in registry && t.Opaque? :: t.serial < minted)
  }

  ghost predicate Extends(a: map<Token, string>, b: map<Token, string>)
  {
    forall t | t in a :: t in b && b[t] == a[t]
  }

  lemma AfterIsNumbered(item: Item, r: Round, budget: nat)
    requires Numbered(r.registry, r.minted)
    ensures var next := After(item, r, budget);
            && Numbered(next.registry, next.minted) && Extends(r.registry, next.registry)
            && r.minted <= next.minted && r.used <= next.used && r.seen <= next.seen
  {
    var next, fate := After(item, r, budget), FateOf(item, r, budget);
    hide EvidenceName, Blank;
    if fate.Admitted? && fate.token !in r.registry {
      var n := |r.registry|;
      assert |next.registry| == n + 1;
      forall t | t in r.registry ensures r.registry[t] != EvidenceName(n + 1) {
        var k :| 1 <= k <= n && r.registry[t] == EvidenceName(k);
        if r.registry[t] == EvidenceName(n + 1) {
          NamesDiffer(k, n + 1);
        }
      }
      forall t | t in next.registry ensures exists k | 1 <= k <= n + 1 :: next.registry[t] == EvidenceName(k) {
        if t in r.registry {
          var k :| 1 <= k <= n && r.registry[t] == EvidenceName(k);
        }
      }
    } else {
      assert next.registry == r.registry;
    }
  }

  /** Between any two moments of a call names only come to the registry, and nothing shrinks. */
  lemma {:induction false} StatesGrow(items: seq<Item>, r: Round, budget: nat, i: nat, j: nat)
    requires Numbered(r.registry, r.minted) && i <= j <= |items|
    ensures var s := States(items, r, budget);
            && Numbered(s[j].registry, s[j].minted) && Extends(s[i].registry, s[j].registry)
            && s[i].minted <= s[j].minted && s[i].used <= s[j].used && s[i].seen <= s[j].seen
    decreases j
  {
    var s := States(items, r, budget);
    hide States, After, Numbered;
    if j > 0 {
      StatesGrow(items, r, budget, if i < j then i else j - 1, j - 1);
      AfterIsNumbered(items[j - 1], s[j - 1], budget);
    }
  }

  /* ---- what a call guarantees ---- */

  function Size(items: seq<Item>, fates: seq<Fate>): nat
    requires |fates| == |items|
  {
    if items == [] then 0 else (if fates[0].Admitted? then |items[0].text| else 0) + Size(items[1..], fates[1..])
  }

  /** The admitted text is what was added to the size, and never exceeds the budget. */
  lemma {:induction false} SizeFits(items: seq<Item>, r: Round, budget: nat)
    requires r.used <= budget
    ensures Last(items, r, budget).used == r.used + Size(items, Fates(items, r, budget)) <= budget
    decreases |items|
  {
    if items != [] {
      var next := After(items[0], r, budget);
      SizeFits(items[1..], next, budget);
      assert Fates(items, r, budget)[1..] == Fates(items[1..], next, budget);
      assert Fates(items, r, budget)[0] == FateOf(items[0], r, budget);
    }
  }

  /** No record that was dropped would still fit at the end. */
  lemma DroppedWouldNotFit(items: seq<Item>, r: Round, budget: nat, i: nat)
    requires Numbered(r.registry, r.minted) && i < |items| && Fates(items, r, budget)[i].Dropped?
    ensures Last(items, r, budget).used + |items[i].text| > budget
  {
    StatesGrow(items, r, budget, i, |items|);
  }

  /** A record is a duplicate exactly if one with the same identity was admitted before it. */
  lemma {:induction false} SeenIsAdmitted(items: seq<Item>, r: Round, budget: nat, i: nat, t: Token)
    requires i <= |items|
    ensures var states := States(items, r, budget);
            t in states[i].seen <==> t in r.seen || exists k | 0 <= k < i :: Fates(items, r, budget)[k] == Admitted(t)
    decreases i
  {
    hide States;
    if i > 0 {
      SeenIsAdmitted(items, r, budget, i - 1, t);
      var states := States(items, r, budget);
      assert states[i] == After(items[i - 1], states[i - 1], budget);
      assert Fates(items, r, budget)[i - 1] == FateOf(items[i - 1], states[i - 1], budget);
    }
  }

  lemma DuplicateIff(items: seq<Item>, registry: map<Token, string>, minted: nat, budget: nat, i: nat)
    requires i < |items|
    ensures var r := Round(registry, minted, {}, 0);
            var fates, token := Fates(items, r, budget), TokenOf(items[i], States(items, r, budget)[i].minted);
            fates[i].Duplicate? <==>
              !items[i].deleted && !Blank(items[i].text) && exists k | 0 <= k < i :: fates[k] == Admitted(token)
  {
    hide Blank, States;
    var r := Round(registry, minted, {}, 0);
    SeenIsAdmitted(items, r, budget, i, TokenOf(items[i], States(items, r, budget)[i].minted));
  }

  /* ---- the counts ---- */

  datatype Stats = Stats(ready: nat, deduplicated: nat, deleted: nat, empty: nat, dropped: nat, admitted: nat, admittedChars: nat)

  function Count(stats: Stats, fate: Fate): Stats
  {
    match fate
    case Deleted => stats.(deleted := stats.deleted + 1)
    case Empty => stats.(empty := stats.empty + 1)
    case Duplicate => stats.(ready := stats.ready + 1, deduplicated := stats.deduplicated + 1)
    case Dropped => stats.(ready := stats.ready + 1, dropped := stats.dropped + 1)
    case Admitted(_) => stats.(ready := stats.ready + 1, admitted := stats.admitted + 1)
  }

  /** The counts balance. */
  function Tally(fates: seq<Fate>): (stats: Stats)
    ensures |fates| == stats.deleted + stats.empty + stats.ready
    ensures stats.ready == stats.deduplicated + stats.dropped + stats.admitted
  {
    if fates == [] then Stats(0, 0, 0, 0, 0, 0, 0) else Count(Tally(fates[..|fates| - 1]), fates[|fates| - 1])
  }

  /** What a call has returned and counted after some of its items. */
  datatype Progress = Progress(round: Round, result: seq<(Item, string)>, stats: Stats)

  /** Counts, sizes and results of the first `k` items. */
  ghost predicate Counted(items: seq<Item>, r: Round, budget: nat, k: nat, p: Progress)
    requires k <= |items|
  {
    && p.round == States(items, r, budget)[k]
    && p.stats == Tally(Fates(items, r, budget)[..k])
    && Returned(items, Fates(items, r, budget), k, p.result, p.round.registry)
  }

  /** The result holds the admitted items in order, each with its token's name. */
  ghost predicate Returned(items: seq<Item>, fates: seq<Fate>, k: nat, result: seq<(Item, string)>, registry: map<Token, string>)
    requires k <= |items| == |fates|
    decreases k
  {
    if k == 0 then result == []
    else if fates[k - 1].Admitted? then
      && result != [] && result[|result| - 1].0 == items[k - 1]
      && fates[k - 1].token in registry && result[|result| - 1].1 == registry[fates[k - 1].token]
      && Returned(items, fates, k - 1, result[..|result| - 1], registry)
    else Returned(items, fates, k - 1, result, registry)
  }

  lemma {:induction false} ReturnedLater(items: seq<Item>, fates: seq<Fate>, k: nat, result: seq<(Item, string)>,
                                         a: map<Token, string>, b: map<Token, string>)
    requires k <= |items| == |fates| && Returned(items, fates, k, result, a) && Extends(a, b)
    ensures Returned(items, fates, k, result, b)
    decreases k
  {
    if k > 0 {
      ReturnedLater(items, fates, k - 1, if fates[k - 1].Admitted? then result[..|result| - 1] else result, a, b);
    }
  }

  function WithItem(p: Progress, item: Item, budget: nat): Progress
  {
    var fate, next := FateOf(item, p.round, budget), After(item, p.round, budget);
    Progress(next,
             if fate.Admitted? && fate.token in next.registry then p.result + [(item, next.registry[fate.token])] else p.result,
             Count(p.stats, fate))
  }

  lemma TallyNext(fates: seq<Fate>, k: nat)
    requires k < |fates|
    ensures Tally(fates[..k + 1]) == Count(Tally(fates[..k]), fates[k])
  {
    assert fates[..k + 1][..k] == fates[..k];
    hide Count;
  }

  lemma ReturnedNext(items: seq<Item>, fates: seq<Fate>, k: nat, result: seq<(Item, string)>, registry: map<Token, string>)
    requires k < |items| == |fates| && Returned(items, fates, k, result, registry)
    requires fates[k].Admitted? ==> fates[k].token in registry
    ensures Returned(items, fates, k + 1,
                     if fates[k].Admitted? then result + [(items[k], registry[fates[k].token])] else result, registry)
  {
    if fates[k].Admitted? {
      var more := result + [(items[k], registry[fates[k].token])];
      assert more[..|more| - 1] == result;
    }
  }

  lemma FateNext(items: seq<Item>, r: Round, budget: nat, k: nat)
    requires Numbered(r.registry, r.minted) && k < |items|
    ensures var states, fate := States(items, r, budget), Fates(items, r, budget)[k];
            && fate == FateOf(items[k], states[k], budget) && states[k + 1] == After(items[k], states[k], budget)
            && Extends(states[k].registry, states[k + 1].registry)
            && (fate.Admitted? ==> fate.token in states[k + 1].registry)
  {
    StatesGrow(items, r, budget, k, k + 1);
    hide States, Numbered, Blank;
  }

  lemma CountNext(items: seq<Item>, r: Round, budget: nat, k: nat, p: Progress)
    requires Numbered(r.registry, r.minted) && k < |items| && Counted(items, r, budget, k, p)
    ensures Counted(items, r, budget, k + 1, WithItem(p, items[k], budget))
  {
    hide States, Numbered, Fates, After, FateOf, Returned, Count, Tally;
    var fates := Fates(items, r, budget);
    FateNext(items, r, budget, k);
    var registry := After(items[k], p.round, budget).registry;
    TallyNext(fates, k);
    ReturnedLater(items, fates, k, p.result, p.round.registry, registry);
    ReturnedNext(items, fates, k, p.result, registry);
  }

  class Registry {
    var ids: map<Token, string>
    var minted: nat

    ghost predicate Valid()
      reads this
    {
      Numbered(ids, minted)
    }

    constructor ()
      ensures Valid() && ids == map[]
    {
      ids := map[];
      minted := 0;
    }

    /** Decide about one record and register it if it is admitted. */
    method Admit(item: Item, seen: set<Token>, used: nat, budget: nat) returns (seen': set<Token>, used': nat, fate: Fate)
      modifies this
      ensures var r := Round(old(ids), old(minted), seen, used);
              fate == FateOf(item, r, budget) && Round(ids, minted, seen', used') == After(item, r, budget)
    {
      hide Blank, EvidenceName;
      seen', used' := seen, used;
      var token := TokenOf(item, minted);
      if item.identity.None? {
        minted := minted + 1;
      }
      if item.deleted {
        return seen, used, Deleted;
      }
      if Blank(item.text) {
        return seen, used, Empty;
      }
      if token in seen {
        return seen, used, Duplicate;
      }
      if used + |item.text| > budget {
        return seen, used, Dropped;
      }
      if token !in ids {
        ids := ids[token := EvidenceName(|ids| + 1)];
      }
      return seen + {token}, used + |item.text|, Admitted(token);
    }

    /** One call: names given before stay, and new ones are new. */
    method Assign(items: seq<Item>, budget: nat) returns (result: seq<(Item, string)>, stats: Stats)
      requires Valid()
      modifies this
      ensures Valid() && Extends(old(ids), ids)
      ensures var r := Round(old(ids), old(minted), {}, 0);
              var fates := Fates(items, r, budget);
              && Round(ids, minted, Last(items, r, budget).seen, Last(items, r, budget).used) == Last(items, r, budget)
              && Returned(items, fates, |items|, result, ids)
              && stats == Tally(fates).(admittedChars := Size(items, fates))
              && stats.admittedChars <= budget
    {
      ghost var r := Round(ids, minted, {}, 0);
      var seen, used: nat := {}, 0;
      result, stats := [], Stats(0, 0, 0, 0, 0, 0, 0);
      hide Counted, FateOf, After, Numbered, Count, States;
      StartCount(items, r, budget);
      for k := 0 to |items|
        invariant Counted(items, r, budget, k, Progress(Round(ids, minted, seen, used), result, stats))
      {
        ghost var before := Progress(Round(ids, minted, seen, used), result, stats);
        CountNext(items, r, budget, k, before);
        AdmittedIsRegistered(items[k], before.round, budget);
        var fate: Fate;
        seen, used, fate := Admit(items[k], seen, used, budget);
        stats := Count(stats, fate);
        if fate.Admitted? {
          result := result + [(items[k], ids[fate.token])];
        }
      }
      FinishCount(items, r, budget, Progress(Round(ids, minted, seen, used), result, stats));
      stats := stats.(admittedChars := used);
    }
  }

  lemma AdmittedIsRegistered(item: Item, r: Round, budget: nat)
    ensures var fate := FateOf(item, r, budget);
            fate.Admitted? ==> fate.token in After(item, r, budget).registry
  {
  }

  lemma StartCount(items: seq<Item>, r: Round, budget: nat)
    ensures Counted(items, r, budget, 0, Progress(r, [], Stats(0, 0, 0, 0, 0, 0, 0)))
  {
    assert Fates(items, r, budget)[..0] == [];
  }

  lemma FinishCount(items: seq<Item>, r: Round, budget: nat, p: Progress)
    requires Numbered(r.registry, r.minted) && r.used == 0 && Counted(items, r, budget, |items|, p)
    ensures Numbered(p.round.registry, p.round.minted) && Extends(r.registry, p.round.registry)
    ensures var fates := Fates(items, r, budget);
            && Returned(items, fates, |items|, p.result, p.round.registry)
            && p.stats.(admittedChars := p.round.used) == Tally(fates).(admittedChars := Size(items, fates))
            && p.round == Last(items, r, budget) && p.round.used <= budget
  {
    StatesGrow(items, r, budget, 0, |items|);
    SizeFits(items, r, budget);
    assert Fates(items, r, budget)[..|items|] == Fates(items, r, budget);
  }
}
