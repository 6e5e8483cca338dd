/**
 The writer's payload on the wire: which names are shared, what stands in their place, and what the
 strict decoder asks for, with the keys spelled out.
 */
module PayloadMeaning {
  import opened Basics
  import opened Decimals
  import opened WriterPayload

  /* ---- names ---- */

  lemma KeysAre()
    ensures EvidenceKey() == "evidence" && RefKey() == "source_ref" && CatalogueKey() == "source_catalogue"
    ensures SourceFields() == {"file", "file_name", "file_path"}
  {
  }

  /** References are numbered in decimal, the first is `S1`. */
  lemma RefNamesAre(n: nat)
    ensures RefName(1) == "S1" && RefName(10) == "S10"
    ensures |RefName(n)| > 1 && RefName(n)[0] == 'S' && (forall i | 1 <= i < |RefName(n)| :: '0' <= RefName(n)[i] <= '9')
    ensures Value(RefName(n)[1..]) == n
  {
    DecimalValue(n);
    assert RefName(n)[1..] == Decimal(n);
    assert Decimal(1) == "1" && Decimal(10) == Decimal(1) + "0";
  }

  /** A source name of the item: a text under one of the three keys. */
  ghost predicate Names(item: Json, key: string, text: string)
  {
    && (key == "file" || key == "file_name" || key == "file_path")
    && item.Obj? && key in item.members && item.members[key] == Str(text)
  }

  /** The group of an item holds its source names and nothing else. */
  lemma GroupIs(item: Json, key: string, text: string)
    ensures key in SourceStrings(item) && SourceStrings(item)[key] == text <==> Names(item, key, text)
  {
  }

  /* ---- sharing ---- */

  lemma {:induction false} CountOne(evidence: seq<Json>, g: Group)
    ensures Count(evidence, g) >= 1 <==> exists i | 0 <= i < |evidence| :: evidence[i].Obj? && SourceStrings(evidence[i]) == g
    decreases |evidence|
  {
    hide SourceStrings;
    if evidence != [] {
      CountOne(evidence[1..], g);
      assert forall i | 1 <= i < |evidence| :: evidence[i] == evidence[1..][i - 1];
    }
  }

  /** Two different items of the evidence have the group. */
  ghost predicate Twice(evidence: seq<Json>, g: Group, i: nat, j: nat)
  {
    && i < j < |evidence| && evidence[i].Obj? && evidence[j].Obj?
    && SourceStrings(evidence[i]) == g && SourceStrings(evidence[j]) == g
  }

  lemma {:induction false} CountTwo(evidence: seq<Json>, g: Group)
    ensures Count(evidence, g) >= 2 <==> exists i: nat, j: nat :: Twice(evidence, g, i, j)
    decreases |evidence|
  {
    hide SourceStrings;
    if evidence != [] {
      var rest := evidence[1..];
      CountTwo(rest, g);
      CountOne(rest, g);
      assert forall i | 1 <= i < |evidence| :: evidence[i] == rest[i - 1];
      if i: nat, j: nat :| Twice(rest, g, i, j) {
        assert Twice(evidence, g, i + 1, j + 1);
      }
      if evidence[0].Obj? && SourceStrings(evidence[0]) == g {
        if i: nat :| i < |rest| && rest[i].Obj? && SourceStrings(rest[i]) == g {
          assert Twice(evidence, g, 0, i + 1);
        }
      }
      forall i: nat, j: nat | Twice(evidence, g, i, j) && i > 0 ensures Twice(rest, g, i - 1, j - 1) {
      }
    }
  }

  /** A group is shared if it is not empty and two items of the evidence have it. */
  lemma RepeatedIs(evidence: seq<Json>, g: Group)
    ensures Repeated(evidence, g) <==> g != map[] && exists i: nat, j: nat :: Twice(evidence, g, i, j)
  {
    CountTwo(evidence, g);
    hide Count;
  }

  /** The place of a group among the distinct groups is the one where it stands. */
  lemma {:induction false} IndexIs(groups: seq<Group>, i: nat)
    requires i < |groups| && forall a, b | 0 <= a < b < |groups| :: groups[a] != groups[b]
    ensures IndexOf(groups, groups[i]) == i
    decreases i
  {
    if i > 0 {
      assert groups[0] != groups[i];
      assert groups[1..][i - 1] == groups[i];
      IndexIs(groups[1..], i - 1);
    }
  }

  /** An item with the `i`th shared group: its source names are replaced by the reference `S(i + 1)`. */
  lemma PackIs(evidence: seq<Json>, groups: seq<Group>, item: Json, i: nat, key: string)
    requires i < |groups| && (forall a, b | 0 <= a < b < |groups| :: groups[a] != groups[b])
    requires item.Obj? && SourceStrings(item) == groups[i] && Repeated(evidence, groups[i])
    ensures var packed := Pack(evidence, groups, item);
            && packed.Obj? && "source_ref" in packed.members && packed.members["source_ref"] == Str(RefName(i + 1))
            && (key != "source_ref" ==>
                  && (key in packed.members <==> key in item.members && !(exists text :: Names(item, key, text)))
                  && (key in packed.members ==> packed.members[key] == item.members[key]))
  {
    hide Repeated, RefName, IndexOf, SourceStrings, Names;
    KeysAre();
    hide RefKey;
    IndexIs(groups, i);
    forall text ensures key in SourceStrings(item) && SourceStrings(item)[key] == text <==> Names(item, key, text) {
      GroupIs(item, key, text);
    }
    if key in SourceStrings(item) {
      assert Names(item, key, SourceStrings(item)[key]);
    }
  }

  /** Any other item stays as it is. */
  lemma PackKeeps(evidence: seq<Json>, groups: seq<Group>, item: Json)
    requires !item.Obj? || SourceStrings(item) !in groups || !Repeated(evidence, SourceStrings(item))
    ensures Pack(evidence, groups, item) == item
  {
    hide Repeated, SourceStrings;
  }

  /** The catalogue lists the groups under `S1`, `S2` and so on, each with its names as texts. */
  lemma CatalogueIs(groups: seq<Group>, i: nat)
    requires i < |groups|
    ensures |Catalogue(groups, |groups|)| == |groups|
    ensures RefName(i + 1) in Catalogue(groups, |groups|)
    ensures var entry := Catalogue(groups, |groups|)[RefName(i + 1)];
            entry.Obj? && entry.members.Keys == groups[i].Keys && forall f | f in groups[i] :: entry.members[f] == Str(groups[i][f])
  {
    CatalogueAt(groups, |groups|, i);
    CatalogueSize(groups, |groups|);
    hide Catalogue, RefName;
  }

  lemma {:induction false} CatalogueSize(groups: seq<Group>, n: nat)
    requires n <= |groups|
    ensures |Catalogue(groups, n)| == n
    decreases n
  {
    hide RefName, AsObject;
    if n > 0 {
      CatalogueSize(groups, n - 1);
      if RefName(n) in Catalogue(groups, n - 1) {
        var i := CatalogueOnly(groups, n - 1, RefName(n));
        RefNamesDiffer(n, i + 1);
      }
    }
  }

  /* ---- encoding ---- */

  /** The item is an object with one of the reserved keys. */
  ghost predicate Collides(item: Json)
  {
    item.Obj? && ("source_ref" in item.members || "source_catalogue" in item.members)
  }

  /** An object without reserved keys whose evidence is a list without reserved keys in its items. */
  ghost predicate Eligible(payload: Json)
  {
    && payload.Obj? && !Collides(payload) && "evidence" in payload.members && payload.members["evidence"].Arr?
    && forall item | item in payload.members["evidence"].items :: !Collides(item)
  }

  lemma EligibleIs(payload: Json)
    ensures Internable(payload) <==> Eligible(payload)
  {
    KeysAre();
    hide EvidenceKey, RefKey, CatalogueKey;
  }

  /** Some source names are shared by two items. */
  ghost predicate Sharing(evidence: seq<Json>)
  {
    exists i: nat, j: nat | i < j < |evidence| :: evidence[i].Obj? && Twice(evidence, SourceStrings(evidence[i]), i, j)
                                                  && SourceStrings(evidence[i]) != map[]
  }

  lemma SharingIs(evidence: seq<Json>)
    ensures Shared(evidence, |evidence|) != [] <==> Sharing(evidence)
  {
    hide Repeated, SourceStrings;
    var groups := Shared(evidence, |evidence|);
    SharedExactly(evidence, |evidence|);
    if groups != [] {
      assert Repeated(evidence, groups[0]);
      RepeatedIs(evidence, groups[0]);
      var i: nat, j: nat :| Twice(evidence, groups[0], i, j);
      assert Twice(evidence, SourceStrings(evidence[i]), i, j);
    }
    if Sharing(evidence) {
      var i: nat, j: nat :| i < j < |evidence| && evidence[i].Obj? && Twice(evidence, SourceStrings(evidence[i]), i, j)
                            && SourceStrings(evidence[i]) != map[];
      RepeatedIs(evidence, SourceStrings(evidence[i]));
      assert SourceStrings(evidence[i]) in groups;
    }
  }

  /**
   A payload is interned exactly if it is eligible, some source names are shared, and the result is
   shorter; otherwise it goes as it is.
   */
  lemma EncodeDecides(payload: Json, shorter: (Json, Json) -> bool)
    ensures var encoded := Encode(payload, shorter);
            && (encoded.interned <==>
                  Eligible(payload) && Internable(payload) && Sharing(payload.members["evidence"].items) && shorter(Candidate(payload), payload))
            && encoded.value == if encoded.interned then Candidate(payload) else payload
  {
    EligibleIs(payload);
    KeysAre();
    hide Internable, Candidate, Shared, EvidenceKey;
    if Eligible(payload) {
      SharingIs(payload.members["evidence"].items);
    }
  }

  /** The interned payload: the packed evidence, the catalogue, and all else as it was. */
  lemma CandidateIs(payload: Json, key: string)
    requires Internable(payload) && Eligible(payload)
    ensures var evidence := payload.members["evidence"].items;
            var groups := Shared(evidence, |evidence|);
            var sent := Candidate(payload);
            && sent.Obj?
            && "source_catalogue" in sent.members && sent.members["source_catalogue"] == Obj(Catalogue(groups, |groups|))
            && "evidence" in sent.members && sent.members["evidence"].Arr? && |sent.members["evidence"].items| == |evidence|
            && (forall k | 0 <= k < |evidence| :: sent.members["evidence"].items[k] == Pack(evidence, groups, evidence[k]))
            && (key != "evidence" && key != "source_catalogue" ==>
                  (key in sent.members <==> key in payload.members) && (key in sent.members ==> sent.members[key] == payload.members[key]))
  {
    KeysAre();
    CandidateParts(payload);
    hide Shared, Catalogue, Pack, PackAll, Internable;
  }

  /* ---- decoding ---- */

  /** A catalogue entry: a reference name and some of the three source names, all texts. */
  ghost predicate Entry(ref: string, fields: Json)
  {
    && |ref| >= 2 && ref[0] == 'S' && '1' <= ref[1] <= '9' && (forall i | 2 <= i < |ref| :: '0' <= ref[i] <= '9')
    && fields.Obj? && fields.members != map[]
    && forall f | f in fields.members :: (f == "file" || f == "file_name" || f == "file_path") && fields.members[f].Str?
  }

  /** An object with the reference. */
  ghost predicate Refers(item: Json, ref: Json)
  {
    item.Obj? && "source_ref" in item.members && item.members["source_ref"] == ref
  }

  /** The item refers to an entry of the catalogue and has neither a catalogue nor those names itself. */
  ghost predicate Resolves(catalogue: Object, item: Json)
  {
    exists ref | ref in catalogue ::
      && Refers(item, Str(ref)) && catalogue[ref].Obj? && "source_catalogue" !in item.members
      && forall f | f in catalogue[ref].members :: f !in item.members
  }

  lemma EntryIs(ref: string, fields: Json)
    ensures ValidEntry(ref, fields) <==> Entry(ref, fields)
  {
  }

  lemma ResolvesIs(catalogue: Object, item: Json)
    requires HasRef(item)
    ensures ValidRef(catalogue, item) <==> Resolves(catalogue, item)
  {
    KeysAre();
    hide CatalogueKey, RefKey;
  }

  lemma {:induction false} UsesOne(evidence: seq<Json>, ref: string)
    ensures Uses(evidence, ref) >= 1 <==> exists i | 0 <= i < |evidence| :: Refers(evidence[i], Str(ref))
    decreases |evidence|
  {
    KeysAre();
    if evidence != [] {
      UsesOne(evidence[1..], ref);
      assert forall i | 1 <= i < |evidence| :: evidence[i] == evidence[1..][i - 1];
      assert HasRef(evidence[0]) && evidence[0].members[RefKey()] == Str(ref) <==> Refers(evidence[0], Str(ref));
      hide HasRef, RefKey, Refers;
    }
  }

  /** Two different items have the reference. */
  ghost predicate ReferTwice(evidence: seq<Json>, ref: string, i: nat, j: nat)
  {
    i < j < |evidence| && Refers(evidence[i], Str(ref)) && Refers(evidence[j], Str(ref))
  }

  lemma {:induction false} UsesTwo(evidence: seq<Json>, ref: string)
    ensures Uses(evidence, ref) >= 2 <==> exists i: nat, j: nat :: ReferTwice(evidence, ref, i, j)
    decreases |evidence|
  {
    KeysAre();
    if evidence != [] {
      var rest := evidence[1..];
      UsesTwo(rest, ref);
      UsesOne(rest, ref);
      assert forall i | 1 <= i < |evidence| :: evidence[i] == rest[i - 1];
      assert HasRef(evidence[0]) && evidence[0].members[RefKey()] == Str(ref) <==> Refers(evidence[0], Str(ref));
      hide HasRef, RefKey, Refers;
      if i: nat, j: nat :| ReferTwice(rest, ref, i, j) {
        assert ReferTwice(evidence, ref, i + 1, j + 1);
      }
      if Refers(evidence[0], Str(ref)) {
        if i: nat :| i < |rest| && Refers(rest[i], Str(ref)) {
          assert ReferTwice(evidence, ref, 0, i + 1);
        }
      }
      forall i: nat, j: nat | ReferTwice(evidence, ref, i, j) && i > 0 ensures ReferTwice(rest, ref, i - 1, j - 1) {
      }
    }
  }

  /**
   The strict decoder accepts an object without a reference of its own, with a list of evidence and a
   catalogue of entries, in which every reference resolves and every entry is used twice or more.
   */
  lemma DecodableDecides(data: Json)
    ensures Decodable(data) <==>
              && data.Obj? && "source_ref" !in data.members
              && "source_catalogue" in data.members && data.members["source_catalogue"].Obj?
              && data.members["source_catalogue"].members != map[]
              && "evidence" in data.members && data.members["evidence"].Arr?
              && var catalogue, evidence := data.members["source_catalogue"].members, data.members["evidence"].items;
                 && (forall ref | ref in catalogue :: Entry(ref, catalogue[ref]))
                 && (forall item | item in evidence && item.Obj? && "source_ref" in item.members :: Resolves(catalogue, item))
                 && forall ref | ref in catalogue :: exists i: nat, j: nat :: ReferTwice(evidence, ref, i, j)
  {
    hide *;
    KeysAre();
    DecodableParts(data);
    if data.Obj? && "source_catalogue" in data.members && data.members["source_catalogue"].Obj?
       && "evidence" in data.members && data.members["evidence"].Arr?
    {
      var catalogue, evidence := data.members["source_catalogue"].members, data.members["evidence"].items;
      forall ref | ref in catalogue ensures ValidEntry(ref, catalogue[ref]) <==> Entry(ref, catalogue[ref]) {
        EntryIs(ref, catalogue[ref]);
      }
      forall item | item in evidence ensures HasRef(item) <==> item.Obj? && "source_ref" in item.members {
        HasRefIs(item);
      }
      forall item | item in evidence && HasRef(item) ensures ValidRef(catalogue, item) <==> Resolves(catalogue, item) {
        ResolvesIs(catalogue, item);
      }
      forall ref | ref in catalogue ensures Uses(evidence, ref) >= 2 <==> exists i: nat, j: nat :: ReferTwice(evidence, ref, i, j) {
        UsesTwo(evidence, ref);
      }
    }
  }

  lemma HasRefIs(item: Json)
    ensures HasRef(item) <==> item.Obj? && "source_ref" in item.members
  {
    KeysAre();
    hide RefKey;
  }

  lemma DecodableParts(data: Json)
    ensures Decodable(data) <==>
              && data.Obj? && "source_ref" !in data.members
              && "source_catalogue" in data.members && data.members["source_catalogue"].Obj?
              && data.members["source_catalogue"].members != map[]
              && "evidence" in data.members && data.members["evidence"].Arr?
              && var catalogue, evidence := data.members["source_catalogue"].members, data.members["evidence"].items;
                 && (forall ref | ref in catalogue :: ValidEntry(ref, catalogue[ref]))
                 && (forall item | item in evidence && HasRef(item) :: ValidRef(catalogue, item))
                 && forall ref | ref in catalogue :: Uses(evidence, ref) >= 2
  {
    KeysAre();
    hide EvidenceKey, RefKey, CatalogueKey, HasRef, ValidEntry, ValidRef, Uses;
  }

  /** In place of the reference the item has the names of the entry; the rest of it stays. */
  lemma RestoreIs(catalogue: Object, item: Json, ref: string, key: string)
    requires Refers(item, Str(ref)) && HasRef(item) && ValidRef(catalogue, item)
    ensures ref in catalogue && catalogue[ref].Obj?
    ensures var restored, fields := Restore(catalogue, item), catalogue[ref].members;
            && restored.Obj?
            && (key in restored.members <==> key in fields || (key in item.members && key != "source_ref"))
            && (key in restored.members ==> restored.members[key] == if key in fields then fields[key] else item.members[key])
  {
    KeysAre();
    hide RefKey, CatalogueKey;
  }
}
