/**
 The writer's payload: repeated source names are interned in a catalogue, and a strict decoder
 restores them (prompt_payload.py).
 */
module WriterPayload {
  import opened Basics
  import opened Decimals

  /** JSON values; members of an object have no order. */
  datatype Json =
    | Null
    | Bool(value: bool)
    | Number(digits: string)
    | Str(text: string)
    | Arr(items: seq<Json>)
    | Obj(members: map<string, Json>)

  type Object = map<string, Json>

  function EvidenceKey(): string
  {
    "evidence"
  }

  function RefKey(): string
  {
    "source_ref"
  }

  function CatalogueKey(): string
  {
    "source_catalogue"
  }

  function SourceFields(): set<string>
  {
    {"file", "file_name", "file_path"}
  }

  lemma NamesDiffer()
    ensures EvidenceKey() != RefKey() && RefKey() != CatalogueKey() && EvidenceKey() != CatalogueKey()
    ensures EvidenceKey() !in SourceFields() && RefKey() !in SourceFields() && CatalogueKey() !in SourceFields()
  {
    assert EvidenceKey()[0] == 'e' && RefKey()[0] == 's' && CatalogueKey()[0] == 's';
    assert |RefKey()| == 10 && |CatalogueKey()| == 16;
    assert forall f | f in SourceFields() :: f[0] == 'f';
  }

  /* ---- reference names ---- */

  function RefName(n: nat): string
  {
    "S" + Decimal(n)
  }

  predicate IsRefName(s: string)
  {
    |s| > 1 && s[0] == 'S' && s[1] != '0' && forall i | 1 <= i < |s| :: '0' <= s[i] <= '9'
  }

  lemma RefNameIsValid(n: nat)
    requires n > 0
    ensures IsRefName(RefName(n))
  {
  }

  lemma RefNamesDiffer(m: nat, n: nat)
    requires RefName(m) == RefName(n)
    ensures m == n
  {
    assert Decimal(m) == RefName(m)[1..] && Decimal(n) == RefName(n)[1..];
    DecimalValue(m);
    DecimalValue(n);
  }

  /* ---- groups of source names ---- */

  type Group = map<string, string>

  function SourceStrings(item: Json): (g: Group)
    ensures forall f | f in g :: f in SourceFields() && item.Obj? && f in item.members && item.members[f] == Str(g[f])
  {
    if !item.Obj? then map[] else
    map f | f in SourceFields() && f in item.members && item.members[f].Str? :: item.members[f].text
  }

  function AsObject(g: Group): Object
  {
    map f | f in g :: Str(g[f])
  }

  function Count(evidence: seq<Json>, g: Group): nat
  {
    if evidence == [] then 0
    else (if evidence[0].Obj? && SourceStrings(evidence[0]) == g then 1 else 0) + Count(evidence[1..], g)
  }

  predicate Repeated(evidence: seq<Json>, g: Group)
  {
    g != map[] && Count(evidence, g) >= 2
  }

  /** The repeated groups in the order of their first appearance. */
  function Shared(evidence: seq<Json>, n: nat): seq<Group>
    requires n <= |evidence|
  {
    if n == 0 then [] else
    var before := Shared(evidence, n - 1);
    var g := SourceStrings(evidence[n - 1]);
    if Repeated(evidence, g) && g !in before then before + [g] else before
  }

  /** Exactly the repeated groups, each once. */
  lemma {:induction false} SharedExactly(evidence: seq<Json>, n: nat)
    requires n <= |evidence|
    ensures var groups := Shared(evidence, n);
            && (forall i | 0 <= i < |groups| :: Repeated(evidence, groups[i]))
            && (forall i, j | 0 <= i < j < |groups| :: groups[i] != groups[j])
            && (forall k | 0 <= k < n && Repeated(evidence, SourceStrings(evidence[k])) :: SourceStrings(evidence[k]) in groups)
  {
    hide Repeated, SourceStrings;
    if n > 0 {
      SharedExactly(evidence, n - 1);
    }
  }

  function IndexOf(groups: seq<Group>, g: Group): (i: nat)
    requires g in groups
    ensures i < |groups| && groups[i] == g
  {
    if groups[0] == g then 0 else 1 + IndexOf(groups[1..], g)
  }

  function Catalogue(groups: seq<Group>, n: nat): (c: Object)
    requires n <= |groups|
  {
    if n == 0 then map[] else Catalogue(groups, n - 1)[RefName(n) := Obj(AsObject(groups[n - 1]))]
  }

  lemma {:induction false} CatalogueAt(groups: seq<Group>, n: nat, i: nat)
    requires i < n <= |groups|
    ensures RefName(i + 1) in Catalogue(groups, n) && Catalogue(groups, n)[RefName(i + 1)] == Obj(AsObject(groups[i]))
  {
    hide RefName, AsObject;
    if i < n - 1 {
      CatalogueAt(groups, n - 1, i);
      if RefName(i + 1) == RefName(n) {
        RefNamesDiffer(i + 1, n);
      }
    }
  }

  lemma {:induction false} CatalogueOnly(groups: seq<Group>, n: nat, ref: string) returns (i: nat)
    requires n <= |groups| && ref in Catalogue(groups, n)
    ensures i < n && ref == RefName(i + 1)
  {
    hide RefName, AsObject;
    if ref == RefName(n) {
      i := n - 1;
    } else {
      i := CatalogueOnly(groups, n - 1, ref);
    }
  }

  /* ---- encoding ---- */

  datatype Encoded = Encoded(value: Json, interned: bool)

  predicate Reserved(item: Json)
  {
    item.Obj? && (RefKey() in item.members || CatalogueKey() in item.members)
  }

  /** An evidence item with its source names replaced by a reference. */
  function Pack(evidence: seq<Json>, groups: seq<Group>, item: Json): Json
  {
    var g := SourceStrings(item);
    if Repeated(evidence, g) && g in groups && item.Obj?
    then Obj((item.members - g.Keys)[RefKey() := Str(RefName(IndexOf(groups, g) + 1))])
    else item
  }

  function PackAll(evidence: seq<Json>, groups: seq<Group>, n: nat): (packed: seq<Json>)
    requires n <= |evidence|
    ensures |packed| == n && forall i | 0 <= i < n :: packed[i] == Pack(evidence, groups, evidence[i])
  {
    if n == 0 then [] else PackAll(evidence, groups, n - 1) + [Pack(evidence, groups, evidence[n - 1])]
  }

  predicate Internable(payload: Json)
  {
    && payload.Obj? && RefKey() !in payload.members && CatalogueKey() !in payload.members
    && EvidenceKey() in payload.members && payload.members[EvidenceKey()].Arr?
    && forall item | item in payload.members[EvidenceKey()].items :: !Reserved(item)
  }

  function Candidate(payload: Json): Json
    requires Internable(payload)
  {
    var evidence := payload.members[EvidenceKey()].items;
    var groups := Shared(evidence, |evidence|);
    Obj(payload.members[EvidenceKey() := Arr(PackAll(evidence, groups, |evidence|))][CatalogueKey() := Obj(Catalogue(groups, |groups|))])
  }

  /** `shorter` compares the sizes of the interned and the plain text. */
  function Encode(payload: Json, shorter: (Json, Json) -> bool): Encoded
  {
    if !Internable(payload) then Encoded(payload, false) else
    var evidence := payload.members[EvidenceKey()].items;
    if Shared(evidence, |evidence|) == [] || !shorter(Candidate(payload), payload) then Encoded(payload, false)
    else Encoded(Candidate(payload), true)
  }

  /* ---- decoding ---- */

  datatype Decoded = Accepted(value: Json) | Rejected

  predicate ValidEntry(ref: string, fields: Json)
  {
    && IsRefName(ref) && fields.Obj? && fields.members != map[]
    && forall f | f in fields.members :: f in SourceFields() && fields.members[f].Str?
  }

  predicate HasRef(item: Json)
  {
    item.Obj? && RefKey() in item.members
  }

  predicate ValidRef(catalogue: Object, item: Json)
    requires HasRef(item)
  {
    var ref := item.members[RefKey()];
    && ref.Str? && ref.text in catalogue && catalogue[ref.text].Obj? && CatalogueKey() !in item.members
    && forall f | f in catalogue[ref.text].members :: f !in item.members
  }

  function Restore(catalogue: Object, item: Json): Json
    requires HasRef(item) ==> ValidRef(catalogue, item)
  {
    if !HasRef(item) then item
    else Obj((item.members - {RefKey()}) + catalogue[item.members[RefKey()].text].members)
  }

  function Uses(evidence: seq<Json>, ref: string): nat
  {
    if evidence == [] then 0
    else (if HasRef(evidence[0]) && evidence[0].members[RefKey()] == Str(ref) then 1 else 0) + Uses(evidence[1..], ref)
  }

  predicate Decodable(data: Json)
  {
    && data.Obj? && RefKey() !in data.members
    && CatalogueKey() in data.members && data.members[CatalogueKey()].Obj? && data.members[CatalogueKey()].members != map[]
    && EvidenceKey() in data.members && data.members[EvidenceKey()].Arr?
    && (forall ref | ref in data.members[CatalogueKey()].members :: ValidEntry(ref, data.members[CatalogueKey()].members[ref]))
    && (forall item | item in data.members[EvidenceKey()].items && HasRef(item) :: ValidRef(data.members[CatalogueKey()].members, item))
    && (forall ref | ref in data.members[CatalogueKey()].members :: Uses(data.members[EvidenceKey()].items, ref) >= 2)
  }

  function RestoreAll(catalogue: Object, evidence: seq<Json>, n: nat): (restored: seq<Json>)
    requires n <= |evidence| && forall item | item in evidence && HasRef(item) :: ValidRef(catalogue, item)
    ensures |restored| == n && forall i | 0 <= i < n :: restored[i] == Restore(catalogue, evidence[i])
  {
    if n == 0 then [] else
    assert evidence[n - 1] in evidence;
    RestoreAll(catalogue, evidence, n - 1) + [Restore(catalogue, evidence[n - 1])]
  }

  function Decode(encoded: Encoded): Decoded
  {
    if !encoded.interned then Accepted(encoded.value)
    else if !Decodable(encoded.value) then Rejected
    else
      var data := encoded.value.members;
      var catalogue, evidence := data[CatalogueKey()].members, data[EvidenceKey()].items;
      Accepted(Obj((data - {CatalogueKey()})[EvidenceKey() := Arr(RestoreAll(catalogue, evidence, |evidence|))]))
  }

  /* ---- the round trip ---- */

  lemma PackHasRef(evidence: seq<Json>, groups: seq<Group>, item: Json)
    requires !Reserved(item)
    ensures var packed, g := Pack(evidence, groups, item), SourceStrings(item);
            && (HasRef(packed) <==> item.Obj? && Repeated(evidence, g) && g in groups)
            && (HasRef(packed) ==> packed.members[RefKey()] == Str(RefName(IndexOf(groups, g) + 1)))
  {
    hide Repeated;
  }

  lemma ObjectsRestore(members: Object, g: Group, ref: Json)
    requires RefKey() !in members && RefKey() !in g && forall f | f in g :: f in members && members[f] == Str(g[f])
    ensures ((members - g.Keys)[RefKey() := ref] - {RefKey()}) + AsObject(g) == members
  {
    hide RefKey;
    var restored := ((members - g.Keys)[RefKey() := ref] - {RefKey()}) + AsObject(g);
    assert restored.Keys == members.Keys;
    assert forall f | f in members :: restored[f] == members[f];
  }

  lemma FieldsOf(item: Json)
    requires !Reserved(item)
    ensures var g := SourceStrings(item);
            && RefKey() !in g && CatalogueKey() !in g
            && (item.Obj? ==> RefKey() !in item.members && CatalogueKey() !in item.members
                              && forall f | f in g :: f in SourceFields() && f in item.members && item.members[f] == Str(g[f]))
  {
    NamesDiffer();
  }

  /** Restoring a packed item gives the item back. */
  lemma PackRestores(evidence: seq<Json>, groups: seq<Group>, item: Json)
    requires !Reserved(item)
    ensures var packed, catalogue := Pack(evidence, groups, item), Catalogue(groups, |groups|);
            (HasRef(packed) ==> ValidRef(catalogue, packed)) && Restore(catalogue, packed) == item
  {
    hide Repeated, Catalogue, RefKey, EvidenceKey, CatalogueKey, SourceFields, SourceStrings, RefName, Reserved, AsObject;
    NamesDiffer();
    PackHasRef(evidence, groups, item);
    FieldsOf(item);
    var g := SourceStrings(item);
    if HasRef(Pack(evidence, groups, item)) {
      CatalogueAt(groups, |groups|, IndexOf(groups, g));
      ObjectsRestore(item.members, g, Str(RefName(IndexOf(groups, g) + 1)));
      AsObjectKeys(g);
    }
  }

  lemma AsObjectKeys(g: Group)
    ensures AsObject(g).Keys == g.Keys
  {
  }

  lemma {:induction false} UsesCount(evidence: seq<Json>, items: seq<Json>, packed: seq<Json>, groups: seq<Group>, i: nat)
    requires i < |groups| && Repeated(evidence, groups[i]) && |packed| == |items|
    requires forall a, b | 0 <= a < b < |groups| :: groups[a] != groups[b]
    requires forall k | 0 <= k < |items| :: !Reserved(items[k]) && packed[k] == Pack(evidence, groups, items[k])
    ensures Uses(packed, RefName(i + 1)) == Count(items, groups[i])
    decreases |items|
  {
    hide Repeated;
    if items != [] {
      hide HasRef, Reserved, IndexOf;
      UsesCount(evidence, items[1..], packed[1..], groups, i);
      PackHasRef(evidence, groups, items[0]);
      var g := SourceStrings(items[0]);
      if HasRef(packed[0]) && packed[0].members[RefKey()] == Str(RefName(i + 1)) {
        RefNamesDiffer(IndexOf(groups, g) + 1, i + 1);
      }
      hide Pack, SourceStrings;
    }
  }

  lemma EntryIsValid(ref: string, g: Group)
    requires IsRefName(ref) && g != map[] && forall f | f in g :: f in SourceFields()
    ensures ValidEntry(ref, Obj(AsObject(g)))
  {
    hide IsRefName, SourceFields;
    var f :| f in g;
    assert f in AsObject(g);
  }

  lemma CatalogueIsValid(groups: seq<Group>, evidence: seq<Json>, ref: string)
    requires forall i | 0 <= i < |groups| :: Repeated(evidence, groups[i]) && forall f | f in groups[i] :: f in SourceFields()
    requires ref in Catalogue(groups, |groups|)
    ensures ValidEntry(ref, Catalogue(groups, |groups|)[ref])
  {
    hide Catalogue, IsRefName, RefName, SourceFields, ValidEntry, AsObject, Count;
    var i := CatalogueOnly(groups, |groups|, ref);
    CatalogueAt(groups, |groups|, i);
    RefNameIsValid(i + 1);
    assert Repeated(evidence, groups[i]);
    EntryIsValid(ref, groups[i]);
  }

  lemma {:induction false} SharedFields(evidence: seq<Json>, n: nat)
    requires n <= |evidence|
    ensures forall i | 0 <= i < |Shared(evidence, n)| :: forall f | f in Shared(evidence, n)[i] :: f in SourceFields()
  {
    hide Repeated;
    if n > 0 {
      SharedFields(evidence, n - 1);
    }
  }

  lemma CandidateParts(payload: Json)
    requires Internable(payload)
    ensures var evidence := payload.members[EvidenceKey()].items;
            var groups := Shared(evidence, |evidence|);
            var candidate := Candidate(payload);
            && candidate.Obj? && RefKey() !in candidate.members
            && EvidenceKey() in candidate.members
            && candidate.members[EvidenceKey()] == Arr(PackAll(evidence, groups, |evidence|))
            && CatalogueKey() in candidate.members
            && candidate.members[CatalogueKey()] == Obj(Catalogue(groups, |groups|))
    ensures forall k: nat | k < |payload.members[EvidenceKey()].items| :: !Reserved(payload.members[EvidenceKey()].items[k])
  {
    NamesDiffer();
    hide EvidenceKey, RefKey, CatalogueKey, Shared, PackAll, Catalogue, Reserved;
    var evidence := payload.members[EvidenceKey()].items;
    assert forall k: nat | k < |evidence| :: evidence[k] in evidence;
  }

  lemma PackedRefIsValid(evidence: seq<Json>, groups: seq<Group>, item: Json)
    requires item in PackAll(evidence, groups, |evidence|) && HasRef(item)
    requires forall k: nat | k < |evidence| :: !Reserved(evidence[k])
    ensures ValidRef(Catalogue(groups, |groups|), item)
  {
    hide *;
    var packed := PackAll(evidence, groups, |evidence|);
    var k :| 0 <= k < |packed| && packed[k] == item;
    PackRestores(evidence, groups, evidence[k]);
  }

  lemma RefIsShared(evidence: seq<Json>, ref: string)
    requires forall k: nat | k < |evidence| :: !Reserved(evidence[k])
    requires var groups := Shared(evidence, |evidence|); ref in Catalogue(groups, |groups|)
    ensures Uses(PackAll(evidence, Shared(evidence, |evidence|), |evidence|), ref) >= 2
  {
    hide *;
    var groups := Shared(evidence, |evidence|);
    SharedExactly(evidence, |evidence|);
    var i := CatalogueOnly(groups, |groups|, ref);
    UsesCount(evidence, evidence, PackAll(evidence, groups, |evidence|), groups, i);
    RepeatedTwice(evidence, groups[i]);
  }

  /** The strict decoder accepts whatever the encoder interns. */
  lemma CandidateIsDecodable(payload: Json)
    requires Internable(payload) && Shared(payload.members[EvidenceKey()].items, |payload.members[EvidenceKey()].items|) != []
    ensures Decodable(Candidate(payload))
  {
    hide EvidenceKey, RefKey, CatalogueKey, SourceFields, Repeated, Shared, Pack, Catalogue, ValidEntry, ValidRef,
      Reserved, HasRef, Uses, PackAll, Candidate, RefName;
    CandidateParts(payload);
    var evidence := payload.members[EvidenceKey()].items;
    var groups := Shared(evidence, |evidence|);
    var packed, catalogue := PackAll(evidence, groups, |evidence|), Catalogue(groups, |groups|);
    SharedFields(evidence, |evidence|);
    SharedExactly(evidence, |evidence|);
    CatalogueAt(groups, |groups|, 0);
    forall ref | ref in catalogue ensures ValidEntry(ref, catalogue[ref]) && Uses(packed, ref) >= 2 {
      CatalogueIsValid(groups, evidence, ref);
      RefIsShared(evidence, ref);
    }
    forall item | item in packed && HasRef(item) ensures ValidRef(catalogue, item) {
      PackedRefIsValid(evidence, groups, item);
    }
  }

  lemma RepeatedTwice(evidence: seq<Json>, g: Group)
    requires Repeated(evidence, g)
    ensures Count(evidence, g) >= 2
  {
  }

  lemma AllRestored(evidence: seq<Json>, groups: seq<Group>)
    requires forall k: nat | k < |evidence| :: !Reserved(evidence[k])
    ensures var packed, catalogue := PackAll(evidence, groups, |evidence|), Catalogue(groups, |groups|);
            && (forall item | item in packed && HasRef(item) :: ValidRef(catalogue, item))
            && RestoreAll(catalogue, packed, |packed|) == evidence
  {
    hide *;
    var packed, catalogue := PackAll(evidence, groups, |evidence|), Catalogue(groups, |groups|);
    forall item | item in packed && HasRef(item) ensures ValidRef(catalogue, item) {
      PackedRefIsValid(evidence, groups, item);
    }
    forall k: nat | k < |evidence| ensures RestoreAll(catalogue, packed, |packed|)[k] == evidence[k] {
      assert packed[k] in packed;
      PackRestores(evidence, groups, evidence[k]);
    }
  }

  /** Decoding what was encoded gives the payload back, whatever the size test says. */
  lemma DecodeEncode(payload: Json, shorter: (Json, Json) -> bool)
    ensures Decode(Encode(payload, shorter)) == Accepted(payload)
  {
    hide EvidenceKey, RefKey, CatalogueKey, SourceFields, Repeated, Shared, Pack, Catalogue,
      Reserved, HasRef, ValidRef, Uses, PackAll, Decodable, RestoreAll;
    if Encode(payload, shorter).interned {
      NamesDiffer();
      CandidateIsDecodable(payload);
      CandidateParts(payload);
      var evidence := payload.members[EvidenceKey()].items;
      AllRestored(evidence, Shared(evidence, |evidence|));
      var data := Candidate(payload).members;
      assert (data - {CatalogueKey()})[EvidenceKey() := Arr(evidence)] == payload.members;
    }
  }

  /* ---- the loops of the source ---- */

  lemma {:induction false} SharedGrows(evidence: seq<Json>, k: nat, n: nat)
    requires k <= n <= |evidence|
    ensures Shared(evidence, k) <= Shared(evidence, n)
  {
    hide Repeated, SourceStrings;
    if k < n {
      SharedGrows(evidence, k, n - 1);
    }
  }

  lemma {:induction false} IndexStays(groups: seq<Group>, longer: seq<Group>, g: Group)
    requires groups <= longer && g in groups
    ensures g in longer && IndexOf(longer, g) == IndexOf(groups, g)
  {
    if groups[0] != g {
      IndexStays(groups[1..], longer[1..], g);
    }
  }

  lemma {:induction false} CatalogueStays(groups: seq<Group>, longer: seq<Group>, n: nat)
    requires n <= |groups| && groups <= longer
    ensures Catalogue(groups, n) == Catalogue(longer, n)
  {
    hide RefName, AsObject;
    if n > 0 {
      CatalogueStays(groups, longer, n - 1);
    }
  }

  ghost predicate Numbered(groups: seq<Group>, refs: map<Group, string>)
  {
    && |refs| == |groups| && (forall g :: g in refs <==> g in groups)
    && forall i | 0 <= i < |groups| :: groups[i] in refs && refs[groups[i]] == RefName(i + 1)
  }

  lemma NumberNext(groups: seq<Group>, refs: map<Group, string>, g: Group)
    requires Numbered(groups, refs) && g !in groups
    ensures Numbered(groups + [g], refs[g := RefName(|refs| + 1)])
    ensures Catalogue(groups + [g], |groups| + 1) == Catalogue(groups, |groups|)[RefName(|refs| + 1) := Obj(AsObject(g))]
  {
    hide RefName, AsObject;
    CatalogueStays(groups, groups + [g], |groups|);
    assert Catalogue(groups + [g], |groups| + 1)
        == Catalogue(groups + [g], |groups|)[RefName(|groups| + 1) := Obj(AsObject(g))];
    hide Catalogue;
    forall i | 0 <= i < |groups| ensures groups[i] != g {
      assert groups[i] in groups;
    }
  }

  lemma NumberOf(groups: seq<Group>, longer: seq<Group>, refs: map<Group, string>, g: Group)
    requires Numbered(groups, refs) && g in groups && groups <= longer
    ensures g in refs && g in longer && refs[g] == RefName(IndexOf(longer, g) + 1)
  {
    hide RefName;
    IndexStays(groups, longer, g);
  }

  lemma SharedStep(evidence: seq<Json>, k: nat)
    requires k < |evidence|
    ensures var g := SourceStrings(evidence[k]);
            Shared(evidence, k + 1) ==
              if Repeated(evidence, g) && g !in Shared(evidence, k) then Shared(evidence, k) + [g] else Shared(evidence, k)
    ensures Repeated(evidence, SourceStrings(evidence[k])) ==>
              SourceStrings(evidence[k]) in Shared(evidence, k + 1) && evidence[k].Obj?
  {
    hide Repeated;
    RepeatedIsObject(evidence, evidence[k]);
  }

  lemma RepeatedIsObject(evidence: seq<Json>, item: Json)
    ensures Repeated(evidence, SourceStrings(item)) ==> item.Obj?
  {
    hide Count;
  }

  method EncodePayload(payload: Json, shorter: (Json, Json) -> bool) returns (encoded: Encoded)
    ensures encoded == Encode(payload, shorter)
  {
    hide Shared, PackAll, Catalogue, Repeated, SourceStrings, RefKey, EvidenceKey, CatalogueKey, Reserved;
    if !Internable(payload) {
      return Encoded(payload, false);
    }
    var evidence := payload.members[EvidenceKey()].items;
    var refs: map<Group, string>, catalogue: Object, packed := PackEvidence(evidence);
    if refs == map[] {
      return Encoded(payload, false);
    }
    var candidate := Obj(payload.members[EvidenceKey() := Arr(packed)][CatalogueKey() := Obj(catalogue)]);
    if !shorter(candidate, payload) {
      return Encoded(payload, false);
    }
    return Encoded(candidate, true);
  }

  /** What has been interned among the first `k` items. */
  ghost predicate Interned(evidence: seq<Json>, k: nat, refs: map<Group, string>, catalogue: Object)
    requires k <= |evidence|
  {
    var groups := Shared(evidence, k);
    Numbered(groups, refs) && catalogue == Catalogue(groups, |groups|)
  }

  lemma InternNext(evidence: seq<Json>, k: nat, refs: map<Group, string>, catalogue: Object)
    requires k < |evidence| && Interned(evidence, k, refs, catalogue)
    ensures var g := SourceStrings(evidence[k]);
            var ref := RefName(|refs| + 1);
            if Repeated(evidence, g) && g !in refs
            then Interned(evidence, k + 1, refs[g := ref], catalogue[ref := Obj(AsObject(g))])
            else Interned(evidence, k + 1, refs, catalogue)
  {
    hide Shared, Catalogue, Repeated, SourceStrings, RefName, AsObject, Numbered;
    var g, groups := SourceStrings(evidence[k]), Shared(evidence, k);
    SharedStep(evidence, k);
    NumberedKeys(groups, refs, g);
    if Repeated(evidence, g) && g !in refs {
      NumberNext(groups, refs, g);
    }
  }

  lemma PackedItem(evidence: seq<Json>, k: nat, refs: map<Group, string>, catalogue: Object)
    requires k < |evidence| && Interned(evidence, k + 1, refs, catalogue)
    ensures var item := evidence[k];
            var g := SourceStrings(item);
            && (Repeated(evidence, g) ==> g in refs && item.Obj?)
            && Pack(evidence, Shared(evidence, |evidence|), item) ==
                 if Repeated(evidence, g) then Obj((item.members - g.Keys)[RefKey() := Str(refs[g])]) else item
  {
    hide Shared, Catalogue, Repeated, SourceStrings, RefName, RefKey, Numbered;
    var g, all := SourceStrings(evidence[k]), Shared(evidence, |evidence|);
    SharedStep(evidence, k);
    SharedGrows(evidence, k + 1, |evidence|);
    if Repeated(evidence, g) {
      NumberOf(Shared(evidence, k + 1), all, refs, g);
    }
  }

  method PackEvidence(evidence: seq<Json>) returns (refs: map<Group, string>, catalogue: Object, packed: seq<Json>)
    ensures var groups := Shared(evidence, |evidence|);
            && (refs == map[] <==> groups == [])
            && catalogue == Catalogue(groups, |groups|) && packed == PackAll(evidence, groups, |evidence|)
  {
    hide *;
    refs, catalogue, packed := map[], map[], [];
    NothingInterned(evidence);
    for k := 0 to |evidence|
      invariant Interned(evidence, k, refs, catalogue)
      invariant |packed| == k && forall i | 0 <= i < k :: packed[i] == Pack(evidence, Shared(evidence, |evidence|), evidence[i])
    {
      var item: Json;
      refs, catalogue, item := PackNext(evidence, k, refs, catalogue);
      packed := packed + [item];
    }
    InternedAll(evidence, refs, catalogue);
  }

  method PackNext(evidence: seq<Json>, k: nat, refs: map<Group, string>, catalogue: Object)
    returns (refs': map<Group, string>, catalogue': Object, item: Json)
    requires k < |evidence| && Interned(evidence, k, refs, catalogue)
    ensures Interned(evidence, k + 1, refs', catalogue')
    ensures item == Pack(evidence, Shared(evidence, |evidence|), evidence[k])
  {
    hide *;
    refs', catalogue', item := refs, catalogue, evidence[k];
    var g := SourceStrings(item);
    InternNext(evidence, k, refs, catalogue);
    if Repeated(evidence, g) && g !in refs {
      var ref := RefName(|refs| + 1);
      refs' := refs[g := ref];
      catalogue' := catalogue[ref := Obj(AsObject(g))];
    }
    PackedItem(evidence, k, refs', catalogue');
    if Repeated(evidence, g) {
      item := Obj((item.members - g.Keys)[RefKey() := Str(refs'[g])]);
    }
  }

  lemma NothingInterned(evidence: seq<Json>)
    ensures Interned(evidence, 0, map[], map[])
  {
    NothingShared(evidence);
  }

  lemma InternedAll(evidence: seq<Json>, refs: map<Group, string>, catalogue: Object)
    requires Interned(evidence, |evidence|, refs, catalogue)
    ensures var groups := Shared(evidence, |evidence|);
            (refs == map[] <==> groups == []) && catalogue == Catalogue(groups, |groups|)
  {
    hide Shared, Catalogue;
    NumberedSize(Shared(evidence, |evidence|), refs);
  }

  lemma NothingShared(evidence: seq<Json>)
    ensures Shared(evidence, 0) == [] && Numbered([], map[]) && Catalogue([], 0) == map[]
  {
  }

  lemma NumberedKeys(groups: seq<Group>, refs: map<Group, string>, g: Group)
    requires Numbered(groups, refs)
    ensures g in refs <==> g in groups
  {
  }

  lemma NumberedSize(groups: seq<Group>, refs: map<Group, string>)
    requires Numbered(groups, refs)
    ensures refs == map[] <==> groups == []
  {
  }

  lemma {:induction false} UsesMore(evidence: seq<Json>, item: Json, ref: string)
    ensures Uses(evidence + [item], ref) ==
              Uses(evidence, ref) + if HasRef(item) && item.members[RefKey()] == Str(ref) then 1 else 0
  {
    hide HasRef, RefKey;
    if evidence == [] {
      assert evidence + [item] == [item];
      assert Uses([item][1..], ref) == 0;
    } else {
      UsesMore(evidence[1..], item, ref);
      assert (evidence + [item])[1..] == evidence[1..] + [item];
    }
  }

  /** Restores every item, counting the uses of each reference; stops at a reference that is not valid. */
  method RestoreEvidence(catalogue: Object, evidence: seq<Json>)
    returns (ok: bool, restored: seq<Json>, used: map<string, nat>)
    ensures ok <==> forall item | item in evidence && HasRef(item) :: ValidRef(catalogue, item)
    ensures ok ==> restored == RestoreAll(catalogue, evidence, |evidence|)
    ensures ok ==> used.Keys == catalogue.Keys && forall ref | ref in catalogue :: used[ref] == Uses(evidence, ref)
  {
    hide RefKey, CatalogueKey, Uses;
    restored := [];
    used := map ref | ref in catalogue :: 0;
    NoUses();
    for k := 0 to |evidence|
      invariant forall i | 0 <= i < k && HasRef(evidence[i]) :: ValidRef(catalogue, evidence[i])
      invariant |restored| == k && forall i | 0 <= i < k :: restored[i] == Restore(catalogue, evidence[i])
      invariant used.Keys == catalogue.Keys && forall ref | ref in catalogue :: used[ref] == Uses(evidence[..k], ref)
    {
      var item := evidence[k];
      assert evidence[..k + 1] == evidence[..k] + [item];
      forall ref {
        UsesMore(evidence[..k], item, ref);
      }
      if !HasRef(item) {
        restored := restored + [item];
        continue;
      }
      if !ValidRef(catalogue, item) {
        assert item in evidence;
        return false, [], map[];
      }
      var ref := item.members[RefKey()].text;
      used := used[ref := used[ref] + 1];
      restored := restored + [Obj((item.members - {RefKey()}) + catalogue[ref].members)];
    }
    assert evidence[..|evidence|] == evidence;
    return true, restored, used;
  }

  lemma NoUses()
    ensures forall ref :: Uses([], ref) == 0
  {
  }

  method DecodePayload(encoded: Encoded) returns (decoded: Decoded)
    ensures decoded == Decode(encoded)
  {
    hide RefKey, EvidenceKey, CatalogueKey, Uses, RestoreAll, ValidRef, HasRef, ValidEntry;
    if !encoded.interned {
      return Accepted(encoded.value);
    }
    var data := encoded.value;
    if !data.Obj? || RefKey() in data.members || CatalogueKey() !in data.members || EvidenceKey() !in data.members {
      return Rejected;
    }
    var catalogue, evidence := data.members[CatalogueKey()], data.members[EvidenceKey()];
    if !catalogue.Obj? || catalogue.members == map[] || !evidence.Arr?
       || exists ref | ref in catalogue.members :: !ValidEntry(ref, catalogue.members[ref]) {
      return Rejected;
    }
    var ok, restored, used := RestoreEvidence(catalogue.members, evidence.items);
    if !ok || exists ref | ref in used :: used[ref] < 2 {
      return Rejected;
    }
    return Accepted(Obj((data.members - {CatalogueKey()})[EvidenceKey() := Arr(restored)]));
  }
}
