/**
 What becomes of each record offered as evidence, and what the counts count, told without the
 functions that decide it.
 */
module EvidenceMeaning {
  import opened Basics
  import opened Decimals
  import opened EvidenceRegistry

  /** The characters of the admitted records among the first `n`. */
  function Admitted(items: seq<Item>, fates: seq<Fate>, n: nat): nat
    requires n <= |items| == |fates|
  {
    if n == 0 then 0 else Admitted(items, fates, n - 1) + if fates[n - 1].Admitted? then |items[n - 1].text| else 0
  }

  lemma {:induction false} UsedIs(items: seq<Item>, r: Round, budget: nat, n: nat)
    requires n <= |items|
    ensures States(items, r, budget)[n].used == r.used + Admitted(items, Fates(items, r, budget), n)
    decreases n
  {
    hide States, Blank;
    if n > 0 {
      UsedIs(items, r, budget, n - 1);
      var s := States(items, r, budget);
      assert Fates(items, r, budget)[n - 1] == FateOf(items[n - 1], s[n - 1], budget);
      assert s[n] == After(items[n - 1], s[n - 1], budget);
    }
  }

  /** A record of the same identity was admitted before. */
  ghost predicate Seen(items: seq<Item>, fates: seq<Fate>, i: nat)
    requires i < |items| == |fates|
  {
    items[i].identity.Some? && exists k | 0 <= k < i :: items[k].identity == items[i].identity && fates[k].Admitted?
  }

  /** A usable record: neither deleted nor blank. */
  ghost predicate Usable(item: Item)
  {
    !item.deleted && exists k | 0 <= k < |item.text| :: !IsSpace(item.text[k])
  }

  lemma BlankIs(text: string)
    ensures Blank(text) <==> forall k | 0 <= k < |text| :: IsSpace(text[k])
  {
    hide IsSpace;
    if Blank(text) {
      assert forall k | 0 <= k < |text| :: text[k] in text;
    }
  }

  /** Tokens that were handed out carry the identity of their record, or a number of their own. */
  lemma {:induction false} TokensAre(items: seq<Item>, r: Round, budget: nat, n: nat)
    requires n <= |items|
    ensures r.minted <= States(items, r, budget)[n].minted
    ensures forall k | 0 <= k < n && Fates(items, r, budget)[k].Admitted? ::
              var token := Fates(items, r, budget)[k].token;
              if items[k].identity.Some? then token == Native(items[k].identity.value)
              else token.Opaque? && r.minted <= token.serial < States(items, r, budget)[n].minted
    decreases n
  {
    hide States, Blank;
    if n > 0 {
      TokensAre(items, r, budget, n - 1);
      var s := States(items, r, budget);
      assert Fates(items, r, budget)[n - 1] == FateOf(items[n - 1], s[n - 1], budget);
      assert s[n] == After(items[n - 1], s[n - 1], budget);
    }
  }

  /**
   The fate of every record of a call: deleted ones and blank ones are left out, a second record of an
   identity that was admitted is a duplicate, one that no longer fits the budget is dropped, and
   every other is admitted under its identity.
   */
  lemma FatesAre(items: seq<Item>, registry: map<Token, string>, minted: nat, budget: nat, i: nat)
    requires i < |items|
    ensures var fates := Fates(items, Round(registry, minted, {}, 0), budget);
            var fits := Admitted(items, fates, i) + |items[i].text| <= budget;
            && (fates[i].Deleted? <==> items[i].deleted)
            && (fates[i].Empty? <==> !items[i].deleted && !Usable(items[i]))
            && (fates[i].Duplicate? <==> Usable(items[i]) && Seen(items, fates, i))
            && (fates[i].Dropped? <==> Usable(items[i]) && !Seen(items, fates, i) && !fits)
            && (fates[i].Admitted? <==> Usable(items[i]) && !Seen(items, fates, i) && fits)
            && (fates[i].Admitted? && items[i].identity.Some? ==> fates[i].token == Native(items[i].identity.value))
  {
    var r := Round(registry, minted, {}, 0);
    var fates, s := Fates(items, r, budget), States(items, r, budget)[i];
    hide States, Blank;
    UsedIs(items, r, budget, i);
    BlankIs(items[i].text);
    assert fates[i] == FateOf(items[i], s, budget);
    SeenIsAdmitted(items, r, budget, i, TokenOf(items[i], s.minted));
    TokensAre(items, r, budget, i);
    SeenTokens(items, r, budget, i);
  }

  lemma SeenTokens(items: seq<Item>, r: Round, budget: nat, i: nat)
    requires i < |items|
    ensures var fates, s := Fates(items, r, budget), States(items, r, budget)[i];
            (exists k | 0 <= k < i :: fates[k] == Fate.Admitted(TokenOf(items[i], s.minted))) <==> Seen(items, fates, i)
  {
    hide States, Fates;
    TokensAre(items, r, budget, i);
    var fates, s := Fates(items, r, budget), States(items, r, budget)[i];
    if k :| 0 <= k < i && fates[k] == Fate.Admitted(TokenOf(items[i], s.minted)) {
      assert items[k].identity == items[i].identity;
    }
    if Seen(items, fates, i) {
      var k :| 0 <= k < i && items[k].identity == items[i].identity && fates[k].Admitted?;
      assert fates[k] == Fate.Admitted(TokenOf(items[i], s.minted));
    }
  }

  /* ---- counts ---- */

  datatype Kind = Removed | Blanks | Repeats | TooLong | Entries | Ready

  /** The records that are neither deleted nor blank are ready. */
  ghost predicate Is(kind: Kind, fate: Fate)
  {
    match kind
    case Removed => fate.Deleted?
    case Blanks => fate.Empty?
    case Repeats => fate.Duplicate?
    case TooLong => fate.Dropped?
    case Entries => fate.Admitted?
    case Ready => !fate.Deleted? && !fate.Empty?
  }

  ghost function HowMany(fates: seq<Fate>, kind: Kind): nat
  {
    if fates == [] then 0 else HowMany(fates[..|fates| - 1], kind) + if Is(kind, fates[|fates| - 1]) then 1 else 0
  }

  function Reported(stats: Stats, kind: Kind): nat
  {
    match kind
    case Removed => stats.deleted
    case Blanks => stats.empty
    case Repeats => stats.deduplicated
    case TooLong => stats.dropped
    case Entries => stats.admitted
    case Ready => stats.ready
  }

  /** Every count counts what it is named after. */
  lemma {:induction false} TallyCounts(fates: seq<Fate>, kind: Kind)
    ensures Reported(Tally(fates), kind) == HowMany(fates, kind)
    decreases |fates|
  {
    if fates != [] {
      TallyCounts(fates[..|fates| - 1], kind);
    }
  }

  /** Names are numbered in decimal, the first is `E1`. */
  lemma NamesAre(n: nat)
    ensures EvidenceName(1) == "E1" && EvidenceName(10) == "E10"
    ensures |EvidenceName(n)| > 1 && EvidenceName(n)[0] == 'E' && (forall i | 1 <= i < |EvidenceName(n)| :: '0' <= EvidenceName(n)[i] <= '9')
    ensures Value(EvidenceName(n)[1..]) == n
  {
    DecimalValue(n);
    assert EvidenceName(n)[1..] == Decimal(n);
    assert Decimal(1) == "1" && Decimal(10) == Decimal(1) + "0";
  }
}
