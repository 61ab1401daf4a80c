/**
 * Partition of the reconciled entries into per-kind maps keyed by field index
 * (DataGen.GetDictionaryFromRelated and GetEnumDictionaryFromRelated; the MdmGen
 * copies are the same code).
 */
module Partition {
  import opened Wrappers
  import opened Text
  import opened Metadata

  /** `char.ToLower(name[0]) + name.Substring(1)`. */
  function NameProp(name: string): string
    requires |name| > 0
  {
    [ToLowerAscii(name[0])] + name[1..]
  }

  /** LINQ `Where`: the elements `keep` accepts, in order. */
  function Where(s: seq<PropertySearchInfo>, keep: PropertySearchInfo -> bool): (r: seq<PropertySearchInfo>)
    ensures |r| <= |s|
    ensures forall i | 0 <= i < |s| && keep(s[i]) :: s[i] in r
    ensures forall j | 0 <= j < |r| :: r[j] in s && keep(r[j])
    ensures forall x {:trigger multiset(r)[x]} :: multiset(r)[x] == if keep(x) then multiset(s)[x] else 0
  {
    if s == [] then []
    else
      assert s == s[..|s| - 1] + [s[|s| - 1]];
      Where(s[..|s| - 1], keep) + (if keep(s[|s| - 1]) then [s[|s| - 1]] else [])
  }

  /** `Where` distributes over concatenation: it keeps the order of the sequence. */
  lemma {:induction false} WhereAppend(a: seq<PropertySearchInfo>, b: seq<PropertySearchInfo>,
                                       keep: PropertySearchInfo -> bool)
    ensures Where(a + b, keep) == Where(a, keep) + Where(b, keep)
    decreases |b|
  {
    if b == [] {
      assert a + b == a;
    } else {
      var b' := b[..|b| - 1];
      assert (a + b)[..|a + b| - 1] == a + b';
      WhereAppend(a, b', keep);
    }
  }

  /** All indexes of `s` are distinct. */
  predicate DistinctIndexes(s: seq<PropertySearchInfo>) {
    forall i, j | 0 <= i < j < |s| :: s[i].index != s[j].index
  }

  /** Every name in `s` is non-empty. */
  predicate AllNamed(s: seq<PropertySearchInfo>) {
    forall i | 0 <= i < |s| :: |s[i].name| > 0
  }

  function Indexes(s: seq<PropertySearchInfo>): set<int> {
    set i | 0 <= i < |s| :: s[i].index
  }

  /**
   * The keying done by `ToDictionary(s => s.Index, ...)`: element by element, the
   * element selector reads `Name[0]` and then `Add` refuses a key already present.
   */
  function KeyEntries(s: seq<PropertySearchInfo>): (r: Result<map<int, PropertySearchInfo>, Error>)
    ensures r.Ok? ==> forall k | k in r.value :: r.value[k].index == k && |r.value[k].name| > 0
  {
    if s == [] then Ok(map[])
    else
      match KeyEntries(s[..|s| - 1])
      case Err(e) => Err(e)
      case Ok(d) =>
        var x := s[|s| - 1];
        if |x.name| == 0 then Err(EmptyName(x.index))
        else if x.index in d then Err(DuplicateKey(x.index))
        else Ok(d[x.index := x])
  }

  lemma IndexesSnoc(s: seq<PropertySearchInfo>)
    requires s != []
    ensures Indexes(s) == Indexes(s[..|s| - 1]) + {s[|s| - 1].index}
  {
    var init := s[..|s| - 1];
    forall k | k in Indexes(s) ensures k in Indexes(init) + {s[|s| - 1].index} {
      var i :| 0 <= i < |s| && s[i].index == k;
      if i < |s| - 1 { assert init[i] == s[i]; }
    }
    forall k | k in Indexes(init) ensures k in Indexes(s) {
      var i :| 0 <= i < |init| && init[i].index == k;
      assert s[i] == init[i];
    }
  }

  /** A successful keying holds every element under its own index and no other key. */
  lemma {:induction false} KeyEntriesContents(s: seq<PropertySearchInfo>)
    ensures KeyEntries(s).Ok? ==> KeyEntries(s).value.Keys == Indexes(s)
    ensures KeyEntries(s).Ok? ==> forall i | 0 <= i < |s| :: KeyEntries(s).value[s[i].index] == s[i]
  {
    if s != [] && KeyEntries(s).Ok? {
      var init := s[..|s| - 1];
      var x := s[|s| - 1];
      KeyEntriesContents(init);
      IndexesSnoc(s);
      var d := KeyEntries(init).value;
      assert KeyEntries(s).value == d[x.index := x];
      forall i | 0 <= i < |s| ensures KeyEntries(s).value[s[i].index] == s[i] {
        if i < |s| - 1 {
          assert s[i] == init[i];
        }
      }
    }
  }

  /** Without a fault in the first elements, keying reaches the last one. */
  lemma {:induction false} KeyEntriesComplete(s: seq<PropertySearchInfo>)
    requires AllNamed(s) && DistinctIndexes(s)
    ensures KeyEntries(s).Ok?
  {
    if s != [] {
      var init := s[..|s| - 1];
      var x := s[|s| - 1];
      assert AllNamed(init) by {
        forall i | 0 <= i < |init| ensures |init[i].name| > 0 { assert init[i] == s[i]; }
      }
      assert DistinctIndexes(init) by {
        forall i, j | 0 <= i < j < |init| ensures init[i].index != init[j].index {
          assert init[i] == s[i] && init[j] == s[j];
        }
      }
      KeyEntriesComplete(init);
      KeyEntriesContents(init);
      assert x.index !in Indexes(init) by {
        forall i | 0 <= i < |init| ensures init[i].index != x.index { assert init[i] == s[i]; }
      }
    }
  }

  /** A successful keying saw only non-empty names and distinct indexes. */
  lemma {:induction false} KeyEntriesSound(s: seq<PropertySearchInfo>)
    requires KeyEntries(s).Ok?
    ensures AllNamed(s) && DistinctIndexes(s)
  {
    if s != [] {
      var init := s[..|s| - 1];
      var x := s[|s| - 1];
      KeyEntriesSound(init);
      KeyEntriesContents(init);
      assert x.index !in Indexes(init);
      forall i, j | 0 <= i < j < |s| ensures s[i].index != s[j].index {
        assert s[i] == init[i];
        if j < |s| - 1 {
          assert s[j] == init[j];
        } else {
          assert init[i].index in Indexes(init);
        }
      }
      forall i | 0 <= i < |s| ensures |s[i].name| > 0 {
        if i < |s| - 1 { assert s[i] == init[i]; }
      }
    }
  }

  /**
   * Keying succeeds exactly when every name is non-empty and no index repeats; the
   * map then holds every element under its own index and no other key.
   */
  lemma KeyEntriesSpec(s: seq<PropertySearchInfo>)
    ensures KeyEntries(s).Ok? <==> AllNamed(s) && DistinctIndexes(s)
    ensures KeyEntries(s).Ok? ==> KeyEntries(s).value.Keys == Indexes(s)
    ensures KeyEntries(s).Ok? ==> forall i | 0 <= i < |s| :: KeyEntries(s).value[s[i].index] == s[i]
  {
    KeyEntriesContents(s);
    if KeyEntries(s).Ok? { KeyEntriesSound(s); }
    if AllNamed(s) && DistinctIndexes(s) { KeyEntriesComplete(s); }
  }

  /** A failure names the index at fault: an empty name there, or a key two elements share. */
  lemma {:induction false} KeyEntriesError(s: seq<PropertySearchInfo>)
    ensures KeyEntries(s).Err? && KeyEntries(s).error.EmptyName? ==>
      exists i | 0 <= i < |s| :: s[i].name == [] && s[i].index == KeyEntries(s).error.index
    ensures KeyEntries(s).Err? && KeyEntries(s).error.DuplicateKey? ==>
      exists i, j | 0 <= i < j < |s| :: s[i].index == s[j].index == KeyEntries(s).error.key
  {
    if s != [] {
      var init := s[..|s| - 1];
      KeyEntriesError(init);
      KeyEntriesSpec(init);
      var r := KeyEntries(s);
      if KeyEntries(init).Err? {
        if r.error.EmptyName? {
          var i :| 0 <= i < |init| && init[i].name == [] && init[i].index == r.error.index;
          assert s[i] == init[i];
        } else {
          var i, j :| 0 <= i < j < |init| && init[i].index == init[j].index == r.error.key;
          assert s[i] == init[i] && s[j] == init[j];
        }
      } else if r.Err? && r.error.DuplicateKey? {
        var i :| 0 <= i < |init| && init[i].index == r.error.key;
        assert s[i] == init[i];
      }
    }
  }

  /** `PropertyMetadata` built from an entry. */
  function Project(e: PropertySearchInfo): PropertyMetadata
    requires |e.name| > 0
  {
    PropertyMetadata(
      nameProp := NameProp(e.name), visible := e.visible, autoNumeric := e.autoNumeric,
      isArray := e.isEnumerable, info := e.info, required := e.isRequired,
      unique := e.isUnique, hasInput := e.hasInput)
  }

  /** `PropertyMetadadataEnum` built from an entry. */
  function ProjectEnum(e: PropertySearchInfo): PropertyMetadataEnum
    requires |e.name| > 0
  {
    PropertyMetadataEnum(nameProp := NameProp(e.name), isArray := e.isEnumerable, info := e.info, enumData := e.enums)
  }

  /** The filter of GetDictionaryFromRelated: an entity entry by its RelatedEntity, a value entry by its Related. */
  predicate InGroup(e: PropertySearchInfo, isEntity: bool, related: int) {
    if isEntity then e.isEntity && e.relatedEntity == related else !e.isEntity && e.related == related
  }

  function GroupFilter(isEntity: bool, related: int): PropertySearchInfo -> bool {
    (e: PropertySearchInfo) => InGroup(e, isEntity, related)
  }

  function Group(s: seq<PropertySearchInfo>, isEntity: bool, related: int): seq<PropertySearchInfo> {
    Where(s, GroupFilter(isEntity, related))
  }

  /** The filter of GetEnumDictionaryFromRelated: `Related == ENUM`, whatever IsEntity says. */
  function EnumFilter(codes: KindCodes): PropertySearchInfo -> bool {
    (e: PropertySearchInfo) => e.related == codes.enumeration
  }

  function EnumGroup(s: seq<PropertySearchInfo>, codes: KindCodes): seq<PropertySearchInfo> {
    Where(s, EnumFilter(codes))
  }

  function DictionaryFromRelated(s: seq<PropertySearchInfo>, isEntity: bool, related: int)
    : Result<map<int, PropertyMetadata>, Error>
  {
    var d :- KeyEntries(Group(s, isEntity, related));
    Ok(map k | k in d :: Project(d[k]))
  }

  function EnumDictionaryFromRelated(s: seq<PropertySearchInfo>, codes: KindCodes)
    : Result<map<int, PropertyMetadataEnum>, Error>
  {
    var d :- KeyEntries(EnumGroup(s, codes));
    Ok(map k | k in d :: ProjectEnum(d[k]))
  }

  // ---- properties of the partition ----

  /** Only the first character changes, and it is lower-cased. */
  lemma NamePropShape(name: string)
    requires |name| > 0
    ensures |NameProp(name)| == |name|
    ensures NameProp(name)[0] == ToLowerAscii(name[0]) && NameProp(name)[1..] == name[1..]
    ensures !('A' <= name[0] <= 'Z') ==> NameProp(name) == name
    ensures NameProp(NameProp(name)) == NameProp(name)
  {
  }

  lemma NamePropExamples()
    ensures NameProp("Id") == "id"
    ensures NameProp("URLPath") == "uRLPath"
  {
  }

  /** The map of a group is the projection of its keying. */
  lemma DictionaryOfKeying(s: seq<PropertySearchInfo>, isEntity: bool, related: int)
    ensures DictionaryFromRelated(s, isEntity, related).Ok? <==> KeyEntries(Group(s, isEntity, related)).Ok?
    ensures DictionaryFromRelated(s, isEntity, related).Ok? ==>
      var d := KeyEntries(Group(s, isEntity, related)).value;
      var m := DictionaryFromRelated(s, isEntity, related).value;
      m.Keys == d.Keys && forall k | k in d :: m[k] == Project(d[k])
  {
  }

  /**
   * A group's map exists exactly when the group's names are non-empty and its
   * indexes distinct; it then holds each member of the group, projected, under its
   * index, and no other key.
   */
  lemma DictionaryFromRelatedSpec(s: seq<PropertySearchInfo>, isEntity: bool, related: int)
    ensures var g := Group(s, isEntity, related);
      DictionaryFromRelated(s, isEntity, related).Ok? <==> AllNamed(g) && DistinctIndexes(g)
    ensures DictionaryFromRelated(s, isEntity, related).Ok? ==>
      var m := DictionaryFromRelated(s, isEntity, related).value;
      && (forall k | k in m :: exists i | 0 <= i < |s| :: InGroup(s[i], isEntity, related) && s[i].index == k)
      && (forall i | 0 <= i < |s| && InGroup(s[i], isEntity, related) ::
            s[i].index in m && |s[i].name| > 0 && m[s[i].index] == Project(s[i]))
  {
    var g := Group(s, isEntity, related);
    DictionaryOfKeying(s, isEntity, related);
    if KeyEntries(g).Ok? {
      KeyEntriesSound(g);
      WhereValues(s, GroupFilter(isEntity, related), g, KeyEntries(g).value);
      WhereKeys(s, GroupFilter(isEntity, related), g, KeyEntries(g).value);
    }
    if AllNamed(g) && DistinctIndexes(g) {
      KeyEntriesComplete(g);
    }
  }

  /** After a successful keying, an element sits under its own index. */
  lemma KeyedMember(g: seq<PropertySearchInfo>, x: PropertySearchInfo)
    requires KeyEntries(g).Ok? && x in g
    ensures x.index in KeyEntries(g).value && KeyEntries(g).value[x.index] == x
  {
    KeyEntriesContents(g);
    var j :| 0 <= j < |g| && g[j] == x;
  }

  /** After a successful keying of a filtered sequence, every kept element sits under its index. */
  lemma WhereValues(s: seq<PropertySearchInfo>, keep: PropertySearchInfo -> bool,
                    g: seq<PropertySearchInfo>, d: map<int, PropertySearchInfo>)
    requires g == Where(s, keep) && KeyEntries(g) == Ok(d)
    ensures forall i | 0 <= i < |s| && keep(s[i]) :: s[i].index in d && d[s[i].index] == s[i]
  {
    forall i | 0 <= i < |s| && keep(s[i]) ensures s[i].index in d && d[s[i].index] == s[i] {
      KeyedMember(g, s[i]);
    }
  }

  /** ... and every key of that keying is the index of a kept element. */
  lemma WhereKeys(s: seq<PropertySearchInfo>, keep: PropertySearchInfo -> bool,
                  g: seq<PropertySearchInfo>, d: map<int, PropertySearchInfo>)
    requires g == Where(s, keep) && KeyEntries(g) == Ok(d)
    ensures forall k | k in d :: exists i | 0 <= i < |s| :: keep(s[i]) && s[i].index == k
  {
    KeyEntriesContents(g);
    forall k | k in d ensures exists i | 0 <= i < |s| :: keep(s[i]) && s[i].index == k {
      assert k in Indexes(g);
      var j :| 0 <= j < |g| && g[j].index == k;
      var i :| 0 <= i < |s| && s[i] == g[j];
    }
  }

  /** Two entries of one group with the same index (even two equal entries) make the map fail with that index or an earlier fault. */
  lemma DuplicateInGroupFails(s: seq<PropertySearchInfo>, isEntity: bool, related: int, i: nat, j: nat)
    requires i < j < |s| && InGroup(s[i], isEntity, related) && InGroup(s[j], isEntity, related)
    requires s[i].index == s[j].index
    ensures DictionaryFromRelated(s, isEntity, related).Err?
  {
    GroupRepeatsIndex(s, GroupFilter(isEntity, related), i, j);
    DictionaryFromRelatedSpec(s, isEntity, related);
  }

  /** Two kept elements at positions `i < j` stay at two distinct positions of the filtered sequence. */
  lemma GroupRepeatsIndex(s: seq<PropertySearchInfo>, keep: PropertySearchInfo -> bool, i: nat, j: nat)
    requires i < j < |s| && keep(s[i]) && keep(s[j]) && s[i].index == s[j].index
    ensures !DistinctIndexes(Where(s, keep))
  {
    var front, back := s[..j], s[j..];
    assert s == front + back;
    WhereAppend(front, back, keep);
    var g1, g2 := Where(front, keep), Where(back, keep);
    assert front[i] == s[i] && back[0] == s[j];
    var a :| 0 <= a < |g1| && g1[a] == s[i];
    var b :| 0 <= b < |g2| && g2[b] == s[j];
    var g := Where(s, keep);
    assert g == g1 + g2;
    assert g[a] == g1[a];
    assert g[|g1| + b] == g2[b];
  }

  /**
   * The enumeration map holds every entry whose Related is the ENUM code, with its
   * name lower-cased at the front and its array flag, documentation and labels copied.
   */
  lemma EnumDictionarySpec(s: seq<PropertySearchInfo>, codes: KindCodes)
    ensures var g := EnumGroup(s, codes);
      EnumDictionaryFromRelated(s, codes).Ok? <==> AllNamed(g) && DistinctIndexes(g)
    ensures EnumDictionaryFromRelated(s, codes).Ok? ==>
      var m := EnumDictionaryFromRelated(s, codes).value;
      && (forall k :: k in m <==> exists i | 0 <= i < |s| :: s[i].related == codes.enumeration && s[i].index == k)
      && (forall i | 0 <= i < |s| && s[i].related == codes.enumeration ::
            && s[i].index in m && |s[i].name| > 0
            && m[s[i].index].nameProp == NameProp(s[i].name)
            && m[s[i].index].isArray == s[i].isEnumerable
            && m[s[i].index].info == s[i].info
            && m[s[i].index].enumData == s[i].enums)
  {
    var g := EnumGroup(s, codes);
    EnumDictionaryOfKeying(s, codes);
    if KeyEntries(g).Ok? {
      KeyEntriesSound(g);
      WhereValues(s, EnumFilter(codes), g, KeyEntries(g).value);
      WhereKeys(s, EnumFilter(codes), g, KeyEntries(g).value);
    }
    if AllNamed(g) && DistinctIndexes(g) {
      KeyEntriesComplete(g);
    }
  }

  lemma EnumDictionaryOfKeying(s: seq<PropertySearchInfo>, codes: KindCodes)
    ensures EnumDictionaryFromRelated(s, codes).Ok? <==> KeyEntries(EnumGroup(s, codes)).Ok?
    ensures EnumDictionaryFromRelated(s, codes).Ok? ==>
      var d := KeyEntries(EnumGroup(s, codes)).value;
      var m := EnumDictionaryFromRelated(s, codes).value;
      m.Keys == d.Keys && forall k | k in d :: m[k] == ProjectEnum(d[k])
  {
  }

  /**
   * The enumeration filter does not look at IsEntity: when the ENUM code is 0, the
   * code every entity reference carries as Related, entity references land in the
   * enumeration map too.
   */
  lemma EntityReferenceInEnumMap(s: seq<PropertySearchInfo>, codes: KindCodes, i: nat)
    requires i < |s| && s[i].isEntity && s[i].related == 0 && codes.enumeration == 0
    requires EnumDictionaryFromRelated(s, codes).Ok?
    ensures s[i].index in EnumDictionaryFromRelated(s, codes).value
  {
    EnumDictionarySpec(s, codes);
  }
}
