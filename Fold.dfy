/**
 * GetModel: one entity's per-kind maps, with SUGGESTION folded into STR, NUM64 into
 * NUM32 and LOCAL_REFERENCE into REFERENCE (DataGen.cs:94-149; MdmGen.cs:232-271 is
 * the same code).
 */
module Fold {
  import opened Wrappers
  import opened Metadata
  import opened Partition

  /** Position of the first element of `s` whose index is in `taken`. */
  function FirstCollision(s: seq<PropertySearchInfo>, taken: set<int>): (r: Option<nat>)
    ensures r.Some? ==> r.value < |s| && s[r.value].index in taken
    ensures r.Some? ==> forall j | 0 <= j < r.value :: s[j].index !in taken
    ensures r.None? <==> forall j | 0 <= j < |s| :: s[j].index !in taken
  {
    if s == [] then None
    else if s[0].index in taken then Some(0)
    else match FirstCollision(s[1..], taken)
      case None => None
      case Some(j) => Some(j + 1)
  }

  lemma {:induction false} FirstCollisionAt(s: seq<PropertySearchInfo>, taken: set<int>, i: nat)
    requires i < |s| && s[i].index in taken
    requires forall j | 0 <= j < i :: s[j].index !in taken
    ensures FirstCollision(s, taken) == Some(i)
  {
    var r := FirstCollision(s, taken);
    assert r.Some?;
  }

  /** The entries of `src` whose key is in `keys`. */
  function Restrict(src: map<int, PropertyMetadata>, keys: set<int>): map<int, PropertyMetadata> {
    map k | k in src && k in keys :: src[k]
  }

  /**
   * Adding every entry of `src`, in the order `order`, to `dest` with an Add that
   * refuses a key `dest` already holds.
   */
  function Joined(dest: map<int, PropertyMetadata>, src: map<int, PropertyMetadata>, order: seq<PropertySearchInfo>)
    : Result<map<int, PropertyMetadata>, Error>
  {
    match FirstCollision(order, dest.Keys)
    case Some(j) => Err(DuplicateKey(order[j].index))
    case None => Ok(dest + src)
  }

  lemma JoinedCollision(dest: map<int, PropertyMetadata>, src: map<int, PropertyMetadata>, order: seq<PropertySearchInfo>, i: nat)
    requires i < |order| && order[i].index in dest
    requires forall j | 0 <= j < i :: order[j].index !in dest
    ensures Joined(dest, src, order) == Err(DuplicateKey(order[i].index))
  {
    FirstCollisionAt(order, dest.Keys, i);
  }

  lemma JoinedDisjoint(dest: map<int, PropertyMetadata>, src: map<int, PropertyMetadata>, order: seq<PropertySearchInfo>)
    requires src.Keys == Indexes(order)
    requires forall j | 0 <= j < |order| :: order[j].index !in dest
    ensures Joined(dest, src, order) == Ok(dest + Restrict(src, Indexes(order)))
  {
    assert Restrict(src, src.Keys) == src;
  }

  /**
   * What GetModel returns. Every map is built from its own kind, in the order the
   * object initializer builds them; then a SUGGESTION entry or a NUM64 entry is kept
   * only where STR or NUM32 has no entry at that index (`src + dest` lets `dest` win),
   * and LOCAL_REFERENCE entries are added to REFERENCE with an unguarded Add, which
   * fails at the first LOCAL_REFERENCE entry whose index REFERENCE already holds.
   */
  function Folded(s: seq<PropertySearchInfo>, docs: Documentation, index: int, codes: KindCodes)
    : Result<EntityMetadata, Error>
  {
    var info := docs.entityInfo(index);
    var boolData :- DictionaryFromRelated(s, false, codes.boolean);
    var stringData :- DictionaryFromRelated(s, false, codes.str);
    var dateData :- DictionaryFromRelated(s, false, codes.date);
    var doubleData :- DictionaryFromRelated(s, false, codes.dbl);
    var enumData :- EnumDictionaryFromRelated(s, codes);
    var geoData :- DictionaryFromRelated(s, false, codes.geo);
    var numData :- DictionaryFromRelated(s, false, codes.num32);
    var relData :- DictionaryFromRelated(s, true, codes.reference);
    var suggestions :- DictionaryFromRelated(s, false, codes.suggestion);
    var num64 :- DictionaryFromRelated(s, false, codes.num64);
    var relLocal :- DictionaryFromRelated(s, true, codes.localReference);
    var relAll :- Joined(relData, relLocal, Group(s, true, codes.localReference));
    Ok(EntityMetadata(
        index := index, title := info.title, shortName := info.shortName, description := info.description,
        visible := false, pathName := "", entityKind := 0, className := "", autoNumeric := false, menus := [],
        boolData := boolData, stringData := suggestions + stringData, dateData := dateData,
        doubleData := doubleData, enumData := enumData, geoData := geoData,
        numData := num64 + numData, relData := relAll))
  }

  /** A group's map, when it exists, is keyed by the distinct indexes of the group. */
  lemma DictionaryKeys(s: seq<PropertySearchInfo>, isEntity: bool, related: int, m: map<int, PropertyMetadata>)
    requires DictionaryFromRelated(s, isEntity, related) == Ok(m)
    ensures DistinctIndexes(Group(s, isEntity, related)) && m.Keys == Indexes(Group(s, isEntity, related))
  {
    var g := Group(s, isEntity, related);
    DictionaryOfKeying(s, isEntity, related);
    KeyEntriesSpec(g);
  }

  lemma RestrictStep(src: map<int, PropertyMetadata>, keys: set<int>, k: int)
    requires k in src
    ensures Restrict(src, keys + {k}) == Restrict(src, keys)[k := src[k]]
  {
  }

  lemma UpdateHidden(a: map<int, PropertyMetadata>, b: map<int, PropertyMetadata>, k: int, v: PropertyMetadata)
    requires k in b
    ensures a[k := v] + b == a + b
  {
  }

  lemma UpdateShown(a: map<int, PropertyMetadata>, b: map<int, PropertyMetadata>, k: int, v: PropertyMetadata)
    requires k !in b
    ensures a[k := v] + b == (a + b)[k := v]
  {
  }

  lemma UpdateRight(a: map<int, PropertyMetadata>, b: map<int, PropertyMetadata>, k: int, v: PropertyMetadata)
    ensures a + b[k := v] == (a + b)[k := v]
  {
  }

  lemma RestrictOutside(src: map<int, PropertyMetadata>, keys: set<int>, k: int)
    requires k !in keys
    ensures k !in Restrict(src, keys)
  {
  }

  /** Visiting `order` front to back: the i-th index is new and the seen keys grow by it. */
  lemma VisitStep(order: seq<PropertySearchInfo>, i: nat)
    requires DistinctIndexes(order) && i < |order|
    ensures order[i].index !in Indexes(order[..i])
    ensures Indexes(order[..i + 1]) == Indexes(order[..i]) + {order[i].index}
    ensures order[i].index in Indexes(order)
  {
    var prefix := order[..i + 1];
    assert prefix[..i] == order[..i];
    IndexesSnoc(prefix);
    forall j | 0 <= j < i ensures order[..i][j].index != order[i].index {
      assert order[..i][j] == order[j];
    }
  }

  /**
   * `foreach (item in src.Where(absent from dest)) dest.Add(item)`, visiting `src` in its
   * insertion order `order`; the absence test reads the map as it grows.
   */
  method AddAbsent(dest: map<int, PropertyMetadata>, src: map<int, PropertyMetadata>, order: seq<PropertySearchInfo>)
    returns (merged: map<int, PropertyMetadata>)
    requires DistinctIndexes(order) && src.Keys == Indexes(order)
    ensures merged == src + dest
  {
    merged := dest;
    for i := 0 to |order|
      invariant merged == Restrict(src, Indexes(order[..i])) + dest
    {
      var k := order[i].index;
      ghost var seen := Indexes(order[..i]);
      VisitStep(order, i);
      RestrictStep(src, seen, k);
      if k !in merged {
        UpdateShown(Restrict(src, seen), dest, k, src[k]);
        merged := merged[k := src[k]];
      } else {
        UpdateHidden(Restrict(src, seen), dest, k, src[k]);
      }
    }
    assert order[..|order|] == order;
  }

  /**
   * `foreach (item in src) dest.Add(item)`, visiting `src` in its insertion order
   * `order`; the first key `dest` already holds raises the exception.
   */
  method AddAll(dest: map<int, PropertyMetadata>, src: map<int, PropertyMetadata>, order: seq<PropertySearchInfo>)
    returns (r: Result<map<int, PropertyMetadata>, Error>)
    requires DistinctIndexes(order) && src.Keys == Indexes(order)
    ensures r == Joined(dest, src, order)
  {
    var merged := dest;
    for i := 0 to |order|
      invariant merged == dest + Restrict(src, Indexes(order[..i]))
      invariant forall j | 0 <= j < i :: order[j].index !in dest
    {
      var k := order[i].index;
      ghost var seen := Indexes(order[..i]);
      VisitStep(order, i);
      RestrictStep(src, seen, k);
      RestrictOutside(src, seen, k);
      if k in merged {
        JoinedCollision(dest, src, order, i);
        return Err(DuplicateKey(k));
      }
      UpdateRight(dest, Restrict(src, seen), k, src[k]);
      merged := merged[k := src[k]];
    }
    assert order[..|order|] == order;
    JoinedDisjoint(dest, src, order);
    return Ok(merged);
  }

  method GetModel(s: seq<PropertySearchInfo>, docs: Documentation, index: int, codes: KindCodes)
    returns (r: Result<EntityMetadata, Error>)
    ensures r == Folded(s, docs, index, codes)
  {
    var info := docs.entityInfo(index);
    var boolData :- DictionaryFromRelated(s, false, codes.boolean);
    var stringData :- DictionaryFromRelated(s, false, codes.str);
    var dateData :- DictionaryFromRelated(s, false, codes.date);
    var doubleData :- DictionaryFromRelated(s, false, codes.dbl);
    var enumData :- EnumDictionaryFromRelated(s, codes);
    var geoData :- DictionaryFromRelated(s, false, codes.geo);
    var numData :- DictionaryFromRelated(s, false, codes.num32);
    var relData :- DictionaryFromRelated(s, true, codes.reference);
    var suggestions :- DictionaryFromRelated(s, false, codes.suggestion);
    var num64 :- DictionaryFromRelated(s, false, codes.num64);
    var relLocal :- DictionaryFromRelated(s, true, codes.localReference);

    DictionaryKeys(s, false, codes.suggestion, suggestions);
    stringData := AddAbsent(stringData, suggestions, Group(s, false, codes.suggestion));
    DictionaryKeys(s, false, codes.num64, num64);
    numData := AddAbsent(numData, num64, Group(s, false, codes.num64));
    DictionaryKeys(s, true, codes.localReference, relLocal);
    relData :- AddAll(relData, relLocal, Group(s, true, codes.localReference));

    r := Ok(EntityMetadata(
      index := index, title := info.title, shortName := info.shortName, description := info.description,
      visible := false, pathName := "", entityKind := 0, className := "", autoNumeric := false, menus := [],
      boolData := boolData, stringData := stringData, dateData := dateData,
      doubleData := doubleData, enumData := enumData, geoData := geoData,
      numData := numData, relData := relData));
  }

  // ---- properties of the fold ----

  /** Some entry of the group (isEntity, related) has index `k`. */
  predicate IndexInGroup(s: seq<PropertySearchInfo>, isEntity: bool, related: int, k: int) {
    exists i | 0 <= i < |s| :: InGroup(s[i], isEntity, related) && s[i].index == k
  }

  /** `m` is keyed by the indexes of the group and holds each member, projected. */
  ghost predicate Holds(s: seq<PropertySearchInfo>, isEntity: bool, related: int, m: map<int, PropertyMetadata>) {
    && (forall k :: k in m <==> IndexInGroup(s, isEntity, related, k))
    && (forall i | 0 <= i < |s| && InGroup(s[i], isEntity, related) ::
          s[i].index in m && |s[i].name| > 0 && m[s[i].index] == Project(s[i]))
  }

  /** Every ToDictionary call of GetModel succeeds. */
  predicate GroupsKeyed(s: seq<PropertySearchInfo>, codes: KindCodes) {
    && DictionaryFromRelated(s, false, codes.boolean).Ok?
    && DictionaryFromRelated(s, false, codes.str).Ok?
    && DictionaryFromRelated(s, false, codes.date).Ok?
    && DictionaryFromRelated(s, false, codes.dbl).Ok?
    && EnumDictionaryFromRelated(s, codes).Ok?
    && DictionaryFromRelated(s, false, codes.geo).Ok?
    && DictionaryFromRelated(s, false, codes.num32).Ok?
    && DictionaryFromRelated(s, true, codes.reference).Ok?
    && DictionaryFromRelated(s, false, codes.suggestion).Ok?
    && DictionaryFromRelated(s, false, codes.num64).Ok?
    && DictionaryFromRelated(s, true, codes.localReference).Ok?
  }

  /** A REFERENCE entry and a LOCAL_REFERENCE entry share the index `k`. */
  predicate SharedReference(s: seq<PropertySearchInfo>, codes: KindCodes, k: int) {
    IndexInGroup(s, true, codes.reference, k) && IndexInGroup(s, true, codes.localReference, k)
  }

  lemma DictionaryHolds(s: seq<PropertySearchInfo>, isEntity: bool, related: int, m: map<int, PropertyMetadata>)
    requires DictionaryFromRelated(s, isEntity, related) == Ok(m)
    ensures Holds(s, isEntity, related, m)
  {
    DictionaryFromRelatedSpec(s, isEntity, related);
  }

  /** A member of a group is an element of the group's sequence. */
  lemma InGroupSeq(s: seq<PropertySearchInfo>, isEntity: bool, related: int, i: nat)
    requires i < |s| && InGroup(s[i], isEntity, related)
    ensures exists j | 0 <= j < |Group(s, isEntity, related)| :: Group(s, isEntity, related)[j] == s[i]
  {
    var g := Group(s, isEntity, related);
    assert GroupFilter(isEntity, related)(s[i]);
    assert s[i] in g;
    var j :| 0 <= j < |g| && g[j] == s[i];
  }

  /** An element of the group's sequence is a member of the group. */
  lemma SeqInGroup(s: seq<PropertySearchInfo>, isEntity: bool, related: int, j: nat)
    requires j < |Group(s, isEntity, related)|
    ensures IndexInGroup(s, isEntity, related, Group(s, isEntity, related)[j].index)
  {
    var g := Group(s, isEntity, related);
    assert g[j] in s && GroupFilter(isEntity, related)(g[j]);
    var i :| 0 <= i < |s| && s[i] == g[j];
  }

  /**
   * `Q + P` for a preferred group P and a secondary group Q: P's members are all kept,
   * a member of Q survives only where P has no entry at its index.
   */
  lemma PreferredUnion(s: seq<PropertySearchInfo>, p: int, q: int, pm: map<int, PropertyMetadata>, qm: map<int, PropertyMetadata>)
    requires Holds(s, false, p, pm) && Holds(s, false, q, qm)
    ensures forall k :: k in qm + pm <==> IndexInGroup(s, false, p, k) || IndexInGroup(s, false, q, k)
    ensures forall i | 0 <= i < |s| && InGroup(s[i], false, p) ::
      s[i].index in qm + pm && |s[i].name| > 0 && (qm + pm)[s[i].index] == Project(s[i])
    ensures forall i | 0 <= i < |s| && InGroup(s[i], false, q) && !IndexInGroup(s, false, p, s[i].index) ::
      s[i].index in qm + pm && |s[i].name| > 0 && (qm + pm)[s[i].index] == Project(s[i])
  {
  }

  /** EntityMetadata after the fold: the parts of Folded that mention `relData`. */
  lemma JoinedSpec(s: seq<PropertySearchInfo>, codes: KindCodes, rm: map<int, PropertyMetadata>, lm: map<int, PropertyMetadata>)
    requires Holds(s, true, codes.reference, rm) && Holds(s, true, codes.localReference, lm)
    ensures Joined(rm, lm, Group(s, true, codes.localReference)).Ok? <==>
      forall k :: !SharedReference(s, codes, k)
    ensures Joined(rm, lm, Group(s, true, codes.localReference)).Err? ==>
      var e := Joined(rm, lm, Group(s, true, codes.localReference)).error;
      e.DuplicateKey? && SharedReference(s, codes, e.key)
  {
    var order := Group(s, true, codes.localReference);
    match FirstCollision(order, rm.Keys)
    case Some(j) =>
      SeqInGroup(s, true, codes.localReference, j);
      assert SharedReference(s, codes, order[j].index);
    case None =>
      forall i | 0 <= i < |s| && InGroup(s[i], true, codes.localReference) ensures s[i].index !in rm {
        InGroupSeq(s, true, codes.localReference, i);
      }
  }

  /**
   * GetModel succeeds exactly when every kind group keys without error and no
   * LOCAL_REFERENCE entry shares its index with a REFERENCE entry; the collision
   * then reported is such a shared index.
   */
  lemma FoldedSucceeds(s: seq<PropertySearchInfo>, docs: Documentation, index: int, codes: KindCodes)
    ensures Folded(s, docs, index, codes).Ok? <==>
      GroupsKeyed(s, codes) && forall k :: !SharedReference(s, codes, k)
    ensures GroupsKeyed(s, codes) && Folded(s, docs, index, codes).Err? ==>
      Folded(s, docs, index, codes).error.DuplicateKey? &&
      SharedReference(s, codes, Folded(s, docs, index, codes).error.key)
  {
    if GroupsKeyed(s, codes) {
      var rm := DictionaryFromRelated(s, true, codes.reference).value;
      var lm := DictionaryFromRelated(s, true, codes.localReference).value;
      DictionaryHolds(s, true, codes.reference, rm);
      DictionaryHolds(s, true, codes.localReference, lm);
      JoinedSpec(s, codes, rm, lm);
    }
  }

  /** What a successful fold is made of, map by map. */
  lemma FoldedShape(s: seq<PropertySearchInfo>, docs: Documentation, index: int, codes: KindCodes, e: EntityMetadata)
    requires Folded(s, docs, index, codes) == Ok(e)
    ensures GroupsKeyed(s, codes)
    ensures e.boolData == DictionaryFromRelated(s, false, codes.boolean).value
    ensures e.stringData == DictionaryFromRelated(s, false, codes.suggestion).value + DictionaryFromRelated(s, false, codes.str).value
    ensures e.dateData == DictionaryFromRelated(s, false, codes.date).value
    ensures e.doubleData == DictionaryFromRelated(s, false, codes.dbl).value
    ensures e.enumData == EnumDictionaryFromRelated(s, codes).value
    ensures e.geoData == DictionaryFromRelated(s, false, codes.geo).value
    ensures e.numData == DictionaryFromRelated(s, false, codes.num64).value + DictionaryFromRelated(s, false, codes.num32).value
    ensures Joined(DictionaryFromRelated(s, true, codes.reference).value, DictionaryFromRelated(s, true, codes.localReference).value,
                   Group(s, true, codes.localReference)) == Ok(e.relData)
    ensures e.index == index && e.title == docs.entityInfo(index).title
    ensures e.shortName == docs.entityInfo(index).shortName && e.description == docs.entityInfo(index).description
    ensures !e.visible && e.pathName == "" && e.entityKind == 0 && e.className == "" && !e.autoNumeric && e.menus == []
  {
  }

  /**
   * The string map after the fold: every STR entry, and every SUGGESTION entry whose
   * index no STR entry has; an existing STR entry is never replaced.
   */
  lemma FoldedStrings(s: seq<PropertySearchInfo>, docs: Documentation, index: int, codes: KindCodes, e: EntityMetadata)
    requires Folded(s, docs, index, codes) == Ok(e)
    ensures forall k :: k in e.stringData <==>
      IndexInGroup(s, false, codes.str, k) || IndexInGroup(s, false, codes.suggestion, k)
    ensures forall i | 0 <= i < |s| && InGroup(s[i], false, codes.str) ::
      s[i].index in e.stringData && |s[i].name| > 0 && e.stringData[s[i].index] == Project(s[i])
    ensures forall i | 0 <= i < |s| && InGroup(s[i], false, codes.suggestion) && !IndexInGroup(s, false, codes.str, s[i].index) ::
      s[i].index in e.stringData && |s[i].name| > 0 && e.stringData[s[i].index] == Project(s[i])
  {
    FoldedShape(s, docs, index, codes, e);
    var pm := DictionaryFromRelated(s, false, codes.str).value;
    var qm := DictionaryFromRelated(s, false, codes.suggestion).value;
    DictionaryHolds(s, false, codes.str, pm);
    DictionaryHolds(s, false, codes.suggestion, qm);
    PreferredUnion(s, codes.str, codes.suggestion, pm, qm);
  }

  /**
   * The number map after the fold: every NUM32 entry, and every NUM64 entry whose
   * index no NUM32 entry has; an existing NUM32 entry is never replaced.
   */
  lemma FoldedNumbers(s: seq<PropertySearchInfo>, docs: Documentation, index: int, codes: KindCodes, e: EntityMetadata)
    requires Folded(s, docs, index, codes) == Ok(e)
    ensures forall k :: k in e.numData <==>
      IndexInGroup(s, false, codes.num32, k) || IndexInGroup(s, false, codes.num64, k)
    ensures forall i | 0 <= i < |s| && InGroup(s[i], false, codes.num32) ::
      s[i].index in e.numData && |s[i].name| > 0 && e.numData[s[i].index] == Project(s[i])
    ensures forall i | 0 <= i < |s| && InGroup(s[i], false, codes.num64) && !IndexInGroup(s, false, codes.num32, s[i].index) ::
      s[i].index in e.numData && |s[i].name| > 0 && e.numData[s[i].index] == Project(s[i])
  {
    FoldedShape(s, docs, index, codes, e);
    var pm := DictionaryFromRelated(s, false, codes.num32).value;
    var qm := DictionaryFromRelated(s, false, codes.num64).value;
    DictionaryHolds(s, false, codes.num32, pm);
    DictionaryHolds(s, false, codes.num64, qm);
    PreferredUnion(s, codes.num32, codes.num64, pm, qm);
  }

  /** A successful join holds both groups. */
  lemma JoinedUnion(s: seq<PropertySearchInfo>, codes: KindCodes, rm: map<int, PropertyMetadata>,
                    lm: map<int, PropertyMetadata>, rel: map<int, PropertyMetadata>)
    requires Holds(s, true, codes.reference, rm) && Holds(s, true, codes.localReference, lm)
    requires Joined(rm, lm, Group(s, true, codes.localReference)) == Ok(rel)
    ensures forall k :: k in rel <==>
      IndexInGroup(s, true, codes.reference, k) || IndexInGroup(s, true, codes.localReference, k)
    ensures forall i | 0 <= i < |s| && (InGroup(s[i], true, codes.reference) || InGroup(s[i], true, codes.localReference)) ::
      s[i].index in rel && |s[i].name| > 0 && rel[s[i].index] == Project(s[i])
  {
    JoinedSpec(s, codes, rm, lm);
    assert rel == rm + lm;
    forall i | 0 <= i < |s| && InGroup(s[i], true, codes.localReference)
      ensures s[i].index !in rm
    {
      assert IndexInGroup(s, true, codes.localReference, s[i].index);
      assert !SharedReference(s, codes, s[i].index);
    }
  }

  /** The reference map after the fold holds every REFERENCE and LOCAL_REFERENCE entry. */
  lemma FoldedReferences(s: seq<PropertySearchInfo>, docs: Documentation, index: int, codes: KindCodes, e: EntityMetadata)
    requires Folded(s, docs, index, codes) == Ok(e)
    ensures forall k :: k in e.relData <==>
      IndexInGroup(s, true, codes.reference, k) || IndexInGroup(s, true, codes.localReference, k)
    ensures forall i | 0 <= i < |s| && (InGroup(s[i], true, codes.reference) || InGroup(s[i], true, codes.localReference)) ::
      s[i].index in e.relData && |s[i].name| > 0 && e.relData[s[i].index] == Project(s[i])
  {
    FoldedShape(s, docs, index, codes, e);
    var rm := DictionaryFromRelated(s, true, codes.reference).value;
    var lm := DictionaryFromRelated(s, true, codes.localReference).value;
    DictionaryHolds(s, true, codes.reference, rm);
    DictionaryHolds(s, true, codes.localReference, lm);
    JoinedUnion(s, codes, rm, lm, e.relData);
  }

  /**
   * The fold touches no other map: BOOL, DATE, DBL and GEO hold exactly their own
   * group and ENUM is the enum map; the header comes from the documentation of
   * `index`, and the fields GenerateDataMdm sets later keep their defaults.
   */
  lemma FoldedOthers(s: seq<PropertySearchInfo>, docs: Documentation, index: int, codes: KindCodes, e: EntityMetadata)
    requires Folded(s, docs, index, codes) == Ok(e)
    ensures Holds(s, false, codes.boolean, e.boolData) && Holds(s, false, codes.date, e.dateData)
    ensures Holds(s, false, codes.dbl, e.doubleData) && Holds(s, false, codes.geo, e.geoData)
    ensures Ok(e.enumData) == EnumDictionaryFromRelated(s, codes)
    ensures e.index == index && e.title == docs.entityInfo(index).title
    ensures e.shortName == docs.entityInfo(index).shortName && e.description == docs.entityInfo(index).description
    ensures !e.visible && e.pathName == "" && e.entityKind == 0 && e.className == "" && !e.autoNumeric && e.menus == []
  {
    FoldedShape(s, docs, index, codes, e);
    DictionaryHolds(s, false, codes.boolean, e.boolData);
    DictionaryHolds(s, false, codes.date, e.dateData);
    DictionaryHolds(s, false, codes.dbl, e.doubleData);
    DictionaryHolds(s, false, codes.geo, e.geoData);
  }
}
