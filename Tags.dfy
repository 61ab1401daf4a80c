/**
 * The version tag StageCommitPush applies before committing: the live computation
 * (util/GenUtil.Git.cs:42-80) and the older one it replaced (MdmGen.cs:77-95).
 */
module Tags {
  import opened Wrappers
  import opened Text

  datatype SemVer = SemVer(major: int, minor: int, patch: int)

  /** `$"{major}.{minor}.{patch}"`. */
  function FormatTag(v: SemVer): string {
    FormatInt(v.major) + "." + FormatInt(v.minor) + "." + FormatInt(v.patch)
  }

  /**
   * A tag name read as major.minor.patch: it needs at least three dot-separated
   * pieces, is cut into at most three (the patch keeps any remainder) and each piece
   * must pass `int.TryParse`.
   */
  function ParseTag(name: string): Option<SemVer> {
    if |SplitOn(name, ".")| < 3 then None
    else
      SplitNCount(name, ".", 3);
      var parts := SplitN(name, ".", 3);
      match (TryParseInt32(parts[0]), TryParseInt32(parts[1]), TryParseInt32(parts[2]))
      case (Some(major), Some(minor), Some(patch)) => Some(SemVer(major, minor, patch))
      case _ => None
  }

  /** Each name read as a version, in tag order. */
  function Parsed(names: seq<string>): (r: seq<Option<SemVer>>)
    ensures |r| == |names|
  {
    seq(|names|, i requires 0 <= i < |names| => ParseTag(names[i]))
  }

  /** The versions present in `xs`, in order. */
  function Somes(xs: seq<Option<SemVer>>): seq<SemVer> {
    if xs == [] then []
    else Somes(xs[..|xs| - 1]) + (match xs[|xs| - 1] case Some(v) => [v] case None => [])
  }

  /** The tags that read as versions, in tag order. */
  function ValidTags(names: seq<string>): seq<SemVer> {
    Somes(Parsed(names))
  }

  /** `tags.Max(selector)`. */
  function MaxBy(tags: seq<SemVer>, selector: SemVer -> int): (r: int)
    requires |tags| > 0
    ensures forall i | 0 <= i < |tags| :: selector(tags[i]) <= r
    ensures exists i | 0 <= i < |tags| :: selector(tags[i]) == r
  {
    if |tags| == 1 then selector(tags[0])
    else
      var m := MaxBy(tags[1..], selector);
      assert forall i | 1 <= i < |tags| :: tags[i] == tags[1..][i - 1];
      if selector(tags[0]) > m then selector(tags[0]) else m
  }

  function Major(v: SemVer): int { v.major }
  function Minor(v: SemVer): int { v.minor }
  function Patch(v: SemVer): int { v.patch }

  /**
   * The new tag: "0.0.1" when no tag reads as a version, otherwise the largest major,
   * the largest minor and the largest patch plus one (unchecked 32-bit addition),
   * each maximum taken on its own.
   */
  function NextTag(names: seq<string>): string {
    NextTagOf(ValidTags(names))
  }

  function NextTagOf(tags: seq<SemVer>): string {
    if tags == [] then "0.0.1" else FormatTag(Bumped(tags))
  }

  function Bumped(tags: seq<SemVer>): SemVer
    requires |tags| > 0
  {
    SemVer(MaxBy(tags, Major), MaxBy(tags, Minor), Wrap32(MaxBy(tags, Patch) + 1))
  }

  // ---- properties of the live computation ----

  /** A formatted version reads back as itself. */
  lemma FormatTagParses(v: SemVer)
    requires MinInt32 <= v.major <= MaxInt32 && MinInt32 <= v.minor <= MaxInt32 && MinInt32 <= v.patch <= MaxInt32
    ensures ParseTag(FormatTag(v)) == Some(v)
  {
    var a, b, c := FormatInt(v.major), FormatInt(v.minor), FormatInt(v.patch);
    FormatIntHasNo(v.major, '.');
    FormatIntHasNo(v.minor, '.');
    FormatIntHasNo(v.patch, '.');
    var name := FormatTag(v);
    assert name == a + "." + (b + "." + c);
    SplitOnJoin(a, b + "." + c);
    SplitOnJoin(b, c);
    SplitNoDot(c, 1);
    SplitNJoin(a, b + "." + c, 3);
    SplitNJoin(b, c, 2);
    assert SplitN(name, ".", 3) == [a, b, c];
    ParseFormat(v.major);
    ParseFormat(v.minor);
    ParseFormat(v.patch);
  }

  /** A tag with a fourth dot-separated piece never reads as a version ("1.2.3.4" is dropped). */
  lemma ExtraPiecesRejected(name: string)
    requires |SplitOn(name, ".")| > 3
    ensures ParseTag(name) == None
  {
    SplitNLast(name, 3);
    TryParseRejects(SplitN(name, ".", 3)[2], '.');
  }

  /** The versions kept are exactly the present ones, in order. */
  lemma {:induction false} SomesSpec(xs: seq<Option<SemVer>>)
    ensures |Somes(xs)| <= |xs|
    ensures forall i | 0 <= i < |Somes(xs)| :: Some(Somes(xs)[i]) in xs
    ensures forall j | 0 <= j < |xs| && xs[j].Some? :: xs[j].value in Somes(xs)
    ensures Somes(xs) == [] <==> forall j | 0 <= j < |xs| :: xs[j].None?
  {
    if xs != [] {
      var init, last := xs[..|xs| - 1], xs[|xs| - 1];
      assert xs == init + [last];
      SomesSpec(init);
      var tail := match last case Some(v) => [v] case None => [];
      assert Somes(xs) == Somes(init) + tail;
      forall i | 0 <= i < |Somes(xs)| ensures Some(Somes(xs)[i]) in xs {
        if i < |Somes(init)| {
          assert Somes(xs)[i] == Somes(init)[i];
          assert Some(Somes(init)[i]) in init;
        } else {
          assert Some(Somes(xs)[i]) == last;
        }
      }
      forall j | 0 <= j < |xs| && xs[j].Some? ensures xs[j].value in Somes(xs) {
        if j < |init| {
          assert xs[j] == init[j];
        }
      }
    }
  }

  /** Every valid tag comes from a name, and every name that reads as a version contributes. */
  lemma ValidTagsSpec(names: seq<string>)
    ensures forall i | 0 <= i < |ValidTags(names)| :: exists j | 0 <= j < |names| :: ParseTag(names[j]) == Some(ValidTags(names)[i])
    ensures forall j | 0 <= j < |names| && ParseTag(names[j]).Some? :: ParseTag(names[j]).value in ValidTags(names)
    ensures ValidTags(names) == [] <==> forall j | 0 <= j < |names| :: ParseTag(names[j]).None?
  {
    var xs := Parsed(names);
    SomesSpec(xs);
    forall i | 0 <= i < |ValidTags(names)| ensures exists j | 0 <= j < |names| :: ParseTag(names[j]) == Some(ValidTags(names)[i]) {
      var j :| 0 <= j < |xs| && xs[j] == Some(ValidTags(names)[i]);
      assert ParseTag(names[j]) == xs[j];
    }
    forall j | 0 <= j < |names| ensures ParseTag(names[j]) == xs[j] { }
  }

  /** A name with fewer than three dot-separated pieces never reads as a version. */
  lemma ShortTagRejected(name: string)
    requires |SplitOn(name, ".")| < 3
    ensures ParseTag(name) == None
  {
  }

  /** With no tag that reads as a version the new tag is "0.0.1". */
  lemma NextTagDefault(names: seq<string>)
    requires forall j | 0 <= j < |names| :: ParseTag(names[j]).None?
    ensures NextTag(names) == "0.0.1"
  {
    ValidTagsSpec(names);
  }

  /** A name appended to the tags adds its version, if it reads as one, at the end. */
  lemma ValidTagsSnoc(names: seq<string>, name: string)
    ensures ValidTags(names + [name]) == ValidTags(names) + (match ParseTag(name) case Some(v) => [v] case None => [])
  {
    var xs := Parsed(names + [name]);
    assert xs[..|xs| - 1] == Parsed(names);
  }

  /** Tags that do not read as versions do not influence the new tag. */
  lemma InvalidTagIgnored(names: seq<string>, name: string)
    requires ParseTag(name).None?
    ensures NextTag(names + [name]) == NextTag(names)
  {
    ValidTagsSnoc(names, name);
    var tags := ValidTags(names);
    assert ValidTags(names + [name]) == tags + [] == tags;
  }

  /** All three parts of every version lie in the 32-bit range. */
  predicate Bounded(tags: seq<SemVer>) {
    forall i | 0 <= i < |tags| ::
      MinInt32 <= tags[i].major <= MaxInt32 && MinInt32 <= tags[i].minor <= MaxInt32 && MinInt32 <= tags[i].patch <= MaxInt32
  }

  /**
   * The bumped version has the largest major and the largest minor of the tags and,
   * without a wrap-around, a patch above every tag's patch; its text reads back as it.
   */
  lemma BumpedSpec(tags: seq<SemVer>)
    requires |tags| > 0 && Bounded(tags)
    ensures var b := Bumped(tags);
      && (forall i | 0 <= i < |tags| :: tags[i].major <= b.major && tags[i].minor <= b.minor)
      && (exists i | 0 <= i < |tags| :: tags[i].major == b.major)
      && (exists i | 0 <= i < |tags| :: tags[i].minor == b.minor)
      && (MaxBy(tags, Patch) < MaxInt32 ==> forall i | 0 <= i < |tags| :: tags[i].patch < b.patch)
      && ParseTag(FormatTag(b)) == Some(b)
  {
    var b := Bumped(tags);
    forall i | 0 <= i < |tags| ensures tags[i].major <= b.major && tags[i].minor <= b.minor && tags[i].patch <= MaxBy(tags, Patch) {
      assert Major(tags[i]) <= MaxBy(tags, Major) && Minor(tags[i]) <= MaxBy(tags, Minor) && Patch(tags[i]) <= MaxBy(tags, Patch);
    }
    var i :| 0 <= i < |tags| && Major(tags[i]) == MaxBy(tags, Major);
    var j :| 0 <= j < |tags| && Minor(tags[j]) == MaxBy(tags, Minor);
    FormatTagParses(b);
  }

  /**
   * At the 32-bit maximum the unchecked `maxPatch + 1` wraps: the new tag carries the
   * smallest patch, -2147483648, which lies below every existing patch.
   */
  lemma PatchOverflowWraps(tags: seq<SemVer>)
    requires |tags| > 0 && Bounded(tags) && MaxBy(tags, Patch) == MaxInt32
    ensures Bumped(tags).patch == MinInt32
    ensures forall i | 0 <= i < |tags| :: Bumped(tags).patch <= tags[i].patch
    ensures ParseTag(NextTagOf(tags)) == Some(SemVer(MaxBy(tags, Major), MaxBy(tags, Minor), MinInt32))
  {
    assert Wrap32(MaxInt32 + 1) == MinInt32;
    BumpedSpec(tags);
  }

  /**
   * With valid tags the new tag is the bumped version of them, and it reads back as
   * that version.
   */
  lemma NextTagBumps(names: seq<string>)
    requires ValidTags(names) != []
    ensures NextTag(names) == FormatTag(Bumped(ValidTags(names)))
    ensures ParseTag(NextTag(names)) == Some(Bumped(ValidTags(names)))
  {
    ValidTagsBounded(names);
    BumpedSpec(ValidTags(names));
  }

  /** Every parsed part is a 32-bit value. */
  lemma ValidTagsBounded(names: seq<string>)
    ensures Bounded(ValidTags(names))
  {
    ValidTagsSpec(names);
    forall i | 0 <= i < |ValidTags(names)| ensures
      var v := ValidTags(names)[i];
      MinInt32 <= v.major <= MaxInt32 && MinInt32 <= v.minor <= MaxInt32 && MinInt32 <= v.patch <= MaxInt32
    {
      var j :| 0 <= j < |names| && ParseTag(names[j]) == Some(ValidTags(names)[i]);
      ParseTagBounded(names[j]);
    }
  }

  lemma ParseTagBounded(name: string)
    requires ParseTag(name).Some?
    ensures var v := ParseTag(name).value;
      MinInt32 <= v.major <= MaxInt32 && MinInt32 <= v.minor <= MaxInt32 && MinInt32 <= v.patch <= MaxInt32
  {
  }

  /** Without a wrap-around the bumped version is none of the versions it was computed from. */
  lemma BumpedIsNew(tags: seq<SemVer>)
    requires |tags| > 0 && Bounded(tags) && MaxBy(tags, Patch) < MaxInt32
    ensures Bumped(tags) !in tags
  {
    BumpedSpec(tags);
    forall i | 0 <= i < |tags| ensures tags[i] != Bumped(tags) {
      assert tags[i].patch < Bumped(tags).patch;
    }
  }

  /** Without a wrap-around the new tag is not the name of any tag that reads as a version. */
  lemma NextTagFresh(names: seq<string>)
    requires ValidTags(names) != [] ==> MaxBy(ValidTags(names), Patch) < MaxInt32
    ensures forall j | 0 <= j < |names| && ParseTag(names[j]).Some? :: names[j] != NextTag(names)
  {
    ValidTagsSpec(names);
    var tags := ValidTags(names);
    if tags != [] {
      ValidTagsBounded(names);
      BumpedIsNew(tags);
      NextTagBumps(names);
      forall j | 0 <= j < |names| && ParseTag(names[j]).Some? ensures names[j] != NextTag(names) {
        assert ParseTag(names[j]).value in tags;
      }
    }
  }

  // ---- the older computation ----

  /** The exceptions of the older computation. */
  datatype TagError =
    | IndexOutOfRange  // `splt[1]` or `splt[2]` of a name with fewer than three pieces
    | ArgumentNull     // `int.Parse(null)`: `Max` of no strings is null

  /** `Comparer<string>.Default` maximum of non-empty strings, taken as ordinal order. */
  function MaxString(xs: seq<string>): (r: string)
    requires |xs| > 0
    ensures r in xs
    ensures forall i | 0 <= i < |xs| :: !OrdinalLess(r, xs[i])
  {
    if |xs| == 1 then
      OrdinalIrreflexive(xs[0]);
      xs[0]
    else
      var init, last := xs[..|xs| - 1], xs[|xs| - 1];
      var m := MaxString(init);
      if OrdinalLess(m, last) then
        MaxStringStep(m, last, init);
        last
      else m
  }

  /** A string above the maximum of `ys` is itself a maximum of `ys` and itself. */
  lemma MaxStringStep(m: string, x: string, ys: seq<string>)
    requires OrdinalLess(m, x) && forall i | 0 <= i < |ys| :: !OrdinalLess(m, ys[i])
    ensures !OrdinalLess(x, x) && forall i | 0 <= i < |ys| :: !OrdinalLess(x, ys[i])
  {
    OrdinalIrreflexive(x);
    forall i | 0 <= i < |ys| ensures !OrdinalLess(x, ys[i]) {
      OrdinalTransitive(m, x, ys[i]);
    }
  }

  /** The three pieces of each name whose pieces all pass `int.TryParse`, in tag order. */
  function LegacyPieces(names: seq<string>): (r: seq<seq<string>>)
    ensures forall i | 0 <= i < |r| :: |r[i]| == 3 && TryParseInt32(r[i][2]).Some?
  {
    if names == [] then []
    else
      var last := names[|names| - 1];
      var parts := SplitN(last, ".", 3);
      LegacyPieces(names[..|names| - 1]) +
        if IsVersionRow(parts) then [parts] else []
  }

  /** Three pieces, each of which reads as an `int`. */
  predicate IsVersionRow(parts: seq<string>) {
    |parts| == 3 && TryParseInt32(parts[0]).Some? && TryParseInt32(parts[1]).Some? && TryParseInt32(parts[2]).Some?
  }

  function Piece(rows: seq<seq<string>>, k: nat): (r: seq<string>)
    requires forall i | 0 <= i < |rows| :: |rows[i]| == 3
    requires k < 3
    ensures |r| == |rows|
  {
    seq(|rows|, i requires 0 <= i < |rows| => rows[i][k])
  }

  /**
   * The older computation: every name is split without a piece-count filter, so one
   * with fewer than three pieces throws; the maxima are taken over the piece strings;
   * and with no valid tag `int.Parse(null)` throws instead of yielding "0.0.1".
   */
  function LegacyNextTag(names: seq<string>): Result<string, TagError> {
    if exists i | 0 <= i < |names| :: |SplitOn(names[i], ".")| < 3 then Err(IndexOutOfRange)
    else LegacyFromPieces(LegacyPieces(names))
  }

  /** The string maxima of the pieces, with the patch maximum parsed and bumped. */
  function LegacyFromPieces(rows: seq<seq<string>>): Result<string, TagError>
    requires forall i | 0 <= i < |rows| :: |rows[i]| == 3 && TryParseInt32(rows[i][2]).Some?
  {
    if rows == [] then Err(ArgumentNull)
    else
      var maxPatch := MaxString(Piece(rows, 2));
      assert exists i | 0 <= i < |rows| :: rows[i][2] == maxPatch;
      var patch := TryParseInt32(maxPatch).value;
      Ok(MaxString(Piece(rows, 0)) + "." + MaxString(Piece(rows, 1)) + "." + FormatInt(Wrap32(patch + 1)))
  }

  // ---- properties of the older computation ----

  /** With every name in three or more pieces, a name contributes its pieces exactly when it reads as a version. */
  lemma {:induction false} LegacyPiecesEmpty(names: seq<string>)
    requires forall i | 0 <= i < |names| :: |SplitOn(names[i], ".")| >= 3
    ensures LegacyPieces(names) == [] <==> forall i | 0 <= i < |names| :: ParseTag(names[i]).None?
  {
    if names != [] {
      var init, last := names[..|names| - 1], names[|names| - 1];
      assert names == init + [last];
      LegacyPiecesEmpty(init);
      LegacyRowKept(last);
      AllInvalidSnoc(init, last);
    }
  }

  lemma AllInvalidSnoc(init: seq<string>, last: string)
    ensures (forall i | 0 <= i < |init + [last]| :: ParseTag((init + [last])[i]).None?) <==>
      (forall i | 0 <= i < |init| :: ParseTag(init[i]).None?) && ParseTag(last).None?
  {
    var names := init + [last];
    assert forall i | 0 <= i < |init| :: names[i] == init[i];
    assert names[|init|] == last;
  }

  /** The three pieces of `row` read as the parts of `v`. */
  predicate RowReads(row: seq<string>, v: SemVer) {
    |row| == 3 && TryParseInt32(row[0]) == Some(v.major) && TryParseInt32(row[1]) == Some(v.minor)
      && TryParseInt32(row[2]) == Some(v.patch)
  }

  /**
   * A name contributes its row exactly when it reads as a version, and the row then
   * reads as that version.
   */
  lemma LegacyRowKept(name: string)
    ensures var parts := SplitN(name, ".", 3);
      && (IsVersionRow(parts) <==> ParseTag(name).Some?)
      && (ParseTag(name).Some? ==> RowReads(parts, ParseTag(name).value))
  {
    SplitNCount(name, ".", 3);
  }

  /**
   * The rows of the older computation are the pieces of exactly the names the live
   * computation reads as versions, in the same order, each row reading as its version.
   */
  lemma LegacyPiecesSpec(names: seq<string>)
    ensures var rows, tags := LegacyPieces(names), ValidTags(names);
      && |rows| == |tags|
      && (forall i | 0 <= i < |rows| :: RowReads(rows[i], tags[i]))
      && (forall i | 0 <= i < |rows| :: exists j | 0 <= j < |names| ::
            rows[i] == SplitN(names[j], ".", 3) && ParseTag(names[j]) == Some(tags[i]))
  {
    LegacyPiecesRead(names);
    LegacyPiecesFromNames(names);
    var rows, tags := LegacyPieces(names), ValidTags(names);
    forall i | 0 <= i < |rows|
      ensures exists j | 0 <= j < |names| :: rows[i] == SplitN(names[j], ".", 3) && ParseTag(names[j]) == Some(tags[i])
    {
      var j :| 0 <= j < |names| && rows[i] == SplitN(names[j], ".", 3);
      LegacyRowKept(names[j]);
      RowReadsUnique(rows[i], tags[i], ParseTag(names[j]).value);
    }
  }

  /** A row reads as at most one version. */
  lemma RowReadsUnique(row: seq<string>, v: SemVer, w: SemVer)
    requires RowReads(row, v) && RowReads(row, w)
    ensures v == w
  {
  }

  lemma {:induction false} LegacyPiecesRead(names: seq<string>)
    ensures var rows, tags := LegacyPieces(names), ValidTags(names);
      |rows| == |tags| && forall i | 0 <= i < |rows| :: RowReads(rows[i], tags[i])
  {
    if names != [] {
      var init, last := names[..|names| - 1], names[|names| - 1];
      assert names == init + [last];
      LegacyPiecesRead(init);
      LegacyPiecesSnoc(init, last);
      ValidTagsSnoc(init, last);
      LegacyRowKept(last);
    }
  }

  /** Every row is the split of one of the names. */
  lemma {:induction false} LegacyPiecesFromNames(names: seq<string>)
    ensures forall i | 0 <= i < |LegacyPieces(names)| :: exists j | 0 <= j < |names| ::
      LegacyPieces(names)[i] == SplitN(names[j], ".", 3)
  {
    if names != [] {
      var init, last := names[..|names| - 1], names[|names| - 1];
      assert names == init + [last];
      LegacyPiecesSnoc(init, last);
      LegacyPiecesFromNames(init);
      var rows0, rows := LegacyPieces(init), LegacyPieces(names);
      assert forall j | 0 <= j < |init| :: names[j] == init[j];
      assert names[|init|] == last;
      forall i | 0 <= i < |rows| ensures exists j | 0 <= j < |names| :: rows[i] == SplitN(names[j], ".", 3) {
        if i < |rows0| {
          var j :| 0 <= j < |init| && rows0[i] == SplitN(init[j], ".", 3);
          assert rows[i] == SplitN(names[j], ".", 3);
        } else {
          assert rows[i] == SplitN(names[|init|], ".", 3);
        }
      }
    } else {
      assert LegacyPieces(names) == [];
    }
  }

  /**
   * Whenever the older computation succeeds, its tag is a piece of the first column,
   * a dot, a piece of the second, a dot, and the patch piece read as a number plus one
   * (unchecked), each chosen piece being ordinally greatest in its column. It succeeds
   * exactly when every name has three pieces and some name reads as a version.
   */
  lemma LegacyNextTagSpec(names: seq<string>)
    ensures LegacyNextTag(names).Ok? <==>
      (forall i | 0 <= i < |names| :: |SplitOn(names[i], ".")| >= 3) && ValidTags(names) != []
    ensures LegacyNextTag(names).Ok? ==> ColumnMaxima(LegacyPieces(names), LegacyNextTag(names).value)
  {
    LegacyPiecesSpec(names);
    if forall i | 0 <= i < |names| :: |SplitOn(names[i], ".")| >= 3 {
      LegacyNextTagPieces(names);
      LegacyFromPiecesSpec(LegacyPieces(names));
    }
  }

  /** Position `i` holds an ordinally greatest string of `column`. */
  predicate Greatest(column: seq<string>, i: int) {
    0 <= i < |column| && forall l | 0 <= l < |column| :: !OrdinalLess(column[i], column[l])
  }

  /**
   * `tag` is a greatest piece of the first column, a dot, a greatest piece of the
   * second, a dot, and a greatest patch piece read as a number plus one (unchecked).
   */
  predicate ColumnMaxima(rows: seq<seq<string>>, tag: string)
    requires forall i | 0 <= i < |rows| :: |rows[i]| == 3 && TryParseInt32(rows[i][2]).Some?
  {
    exists i, j, k | 0 <= i < |rows| && 0 <= j < |rows| && 0 <= k < |rows|
                  && Greatest(Piece(rows, 0), i) && Greatest(Piece(rows, 1), j) && Greatest(Piece(rows, 2), k) ::
      tag == rows[i][0] + "." + rows[j][1] + "." + FormatInt(Wrap32(TryParseInt32(rows[k][2]).value + 1))
  }

  /** The maximum sits at a greatest position of the column. */
  lemma MaxStringGreatest(column: seq<string>) returns (i: nat)
    requires |column| > 0
    ensures Greatest(column, i) && column[i] == MaxString(column)
  {
    i :| 0 <= i < |column| && column[i] == MaxString(column);
    forall l | 0 <= l < |column| ensures !OrdinalLess(column[i], column[l]) {
      assert !OrdinalLess(MaxString(column), column[l]);
    }
  }

  /** On rows, the older computation fails exactly when there are none, and otherwise takes the column maxima. */
  lemma LegacyFromPiecesSpec(rows: seq<seq<string>>)
    requires forall i | 0 <= i < |rows| :: |rows[i]| == 3 && TryParseInt32(rows[i][2]).Some?
    ensures LegacyFromPieces(rows).Ok? <==> rows != []
    ensures LegacyFromPieces(rows).Ok? ==> ColumnMaxima(rows, LegacyFromPieces(rows).value)
  {
    if rows != [] {
      var i := MaxStringGreatest(Piece(rows, 0));
      var j := MaxStringGreatest(Piece(rows, 1));
      var k := MaxStringGreatest(Piece(rows, 2));
      LegacyTagAt(rows, i, j, k);
      ColumnMaximaAt(rows, i, j, k, LegacyFromPieces(rows).value);
    }
  }

  /** The older computation's tag, read through the positions of the column maxima. */
  lemma LegacyTagAt(rows: seq<seq<string>>, i: nat, j: nat, k: nat)
    requires forall l | 0 <= l < |rows| :: |rows[l]| == 3 && TryParseInt32(rows[l][2]).Some?
    requires i < |rows| && j < |rows| && k < |rows|
    requires Piece(rows, 0)[i] == MaxString(Piece(rows, 0)) && Piece(rows, 1)[j] == MaxString(Piece(rows, 1))
    requires Piece(rows, 2)[k] == MaxString(Piece(rows, 2))
    ensures LegacyFromPieces(rows)
      == Ok(rows[i][0] + "." + rows[j][1] + "." + FormatInt(Wrap32(TryParseInt32(rows[k][2]).value + 1)))
  {
  }

  lemma ColumnMaximaAt(rows: seq<seq<string>>, i: nat, j: nat, k: nat, tag: string)
    requires forall l | 0 <= l < |rows| :: |rows[l]| == 3 && TryParseInt32(rows[l][2]).Some?
    requires i < |rows| && j < |rows| && k < |rows|
    requires Greatest(Piece(rows, 0), i) && Greatest(Piece(rows, 1), j) && Greatest(Piece(rows, 2), k)
    requires tag == rows[i][0] + "." + rows[j][1] + "." + FormatInt(Wrap32(TryParseInt32(rows[k][2]).value + 1))
    ensures ColumnMaxima(rows, tag)
  {
  }

  /**
   * The older computation fails on any name with fewer than three pieces, and when no
   * name reads as a version, where the live one yields "0.0.1".
   */
  lemma LegacyErrors(names: seq<string>)
    ensures LegacyNextTag(names) == Err(IndexOutOfRange) <==>
      exists i | 0 <= i < |names| :: |SplitOn(names[i], ".")| < 3
    ensures LegacyNextTag(names) == Err(ArgumentNull) <==>
      (forall i | 0 <= i < |names| :: |SplitOn(names[i], ".")| >= 3) && ValidTags(names) == []
    ensures LegacyNextTag(names).Err? || ValidTags(names) != []
  {
    ValidTagsSpec(names);
    if forall i | 0 <= i < |names| :: |SplitOn(names[i], ".")| >= 3 {
      LegacyPiecesEmpty(names);
    }
  }

  /** Three dot-free pieces joined by dots split back into those pieces. */
  lemma ThreePieces(a: string, b: string, c: string)
    requires '.' !in a && '.' !in b && '.' !in c
    ensures SplitOn(a + "." + b + "." + c, ".") == [a, b, c]
    ensures SplitN(a + "." + b + "." + c, ".", 3) == [a, b, c]
  {
    ThreePiecesSplitOn(a, b, c);
    ThreePiecesSplitN(a, b, c);
  }

  lemma ThreePiecesSplitOn(a: string, b: string, c: string)
    requires '.' !in a && '.' !in b && '.' !in c
    ensures SplitOn(a + "." + b + "." + c, ".") == [a, b, c]
  {
    assert a + "." + b + "." + c == a + "." + (b + "." + c);
    SplitOnJoin(a, b + "." + c);
    SplitOnJoin(b, c);
    SplitNoDot(c, 1);
  }

  lemma ThreePiecesSplitN(a: string, b: string, c: string)
    requires '.' !in a && '.' !in b && '.' !in c
    ensures SplitN(a + "." + b + "." + c, ".", 3) == [a, b, c]
  {
    assert a + "." + b + "." + c == a + "." + (b + "." + c);
    SplitNoDot(c, 1);
    SplitNJoin(a, b + "." + c, 3);
    SplitNJoin(b, c, 2);
  }

  /** A name made of three dot-free numerals reads as the version of those numbers. */
  lemma ParsePieces(a: string, b: string, c: string, v: SemVer)
    requires '.' !in a && '.' !in b && '.' !in c
    requires TryParseInt32(a) == Some(v.major) && TryParseInt32(b) == Some(v.minor) && TryParseInt32(c) == Some(v.patch)
    ensures SplitOn(a + "." + b + "." + c, ".") == [a, b, c]
    ensures SplitN(a + "." + b + "." + c, ".", 3) == [a, b, c]
    ensures ParseTag(a + "." + b + "." + c) == Some(v)
  {
    ThreePieces(a, b, c);
  }

  // ---- the two tags "1.0.9" and "1.0.10" ----
  // SmallNumbers and the Example* lemmas below have no counterpart in the program:
  // they only evaluate the two computations on these tags, for LegacyTagCollides and
  // CorrectedTagFresh.

  lemma SmallNumbers()
    ensures FormatInt(0) == "0" && FormatInt(1) == "1" && FormatInt(9) == "9"
    ensures FormatInt(10) == "10" && FormatInt(11) == "11"
  {
    assert NatToString(1) == "1";
    assert NatToString(10) == NatToString(1) + [DigitChar(0)];
    assert NatToString(11) == NatToString(1) + [DigitChar(1)];
  }

  /** The two example tags split and read as versions. */
  lemma ExampleTags(a: string, b: string)
    requires a == "1.0.9" && b == "1.0.10"
    ensures SplitOn(a, ".") == ["1", "0", "9"] && SplitN(a, ".", 3) == ["1", "0", "9"]
    ensures SplitOn(b, ".") == ["1", "0", "10"] && SplitN(b, ".", 3) == ["1", "0", "10"]
    ensures ParseTag(a) == Some(SemVer(1, 0, 9)) && ParseTag(b) == Some(SemVer(1, 0, 10))
  {
    ExampleNumbers();
    ExampleTag(a, "9", SemVer(1, 0, 9));
    ExampleTag(b, "10", SemVer(1, 0, 10));
  }

  lemma ExampleTag(a: string, patch: string, v: SemVer)
    requires a == "1.0." + patch && '.' !in patch
    requires TryParseInt32("1") == Some(v.major) && TryParseInt32("0") == Some(v.minor) && TryParseInt32(patch) == Some(v.patch)
    ensures SplitOn(a, ".") == ["1", "0", patch] && SplitN(a, ".", 3) == ["1", "0", patch]
    ensures ParseTag(a) == Some(v)
  {
    assert a == "1" + "." + "0" + "." + patch;
    ParsePieces("1", "0", patch, v);
  }

  lemma ExampleNumbers()
    ensures TryParseInt32("0") == Some(0) && TryParseInt32("1") == Some(1)
    ensures TryParseInt32("9") == Some(9) && TryParseInt32("10") == Some(10)
  {
    SmallNumbers();
    ParseFormat(0);
    ParseFormat(1);
    ParseFormat(9);
    ParseFormat(10);
  }

  lemma ExampleRows(names: seq<string>)
    requires names == ["1.0.9", "1.0.10"]
    ensures LegacyPieces(names) == [["1", "0", "9"], ["1", "0", "10"]]
  {
    ExampleTags(names[0], names[1]);
    ExampleNumbers();
    LegacyPiecesPair(names[0], names[1]);
    assert names == [names[0], names[1]];
  }

  /** Two names whose pieces all read as numbers keep their rows, in order. */
  lemma LegacyPiecesPair(a: string, b: string)
    requires IsVersionRow(SplitN(a, ".", 3)) && IsVersionRow(SplitN(b, ".", 3))
    ensures LegacyPieces([a, b]) == [SplitN(a, ".", 3), SplitN(b, ".", 3)]
  {
    assert LegacyPieces([a]) == [SplitN(a, ".", 3)] by {
      var none: seq<string> := [];
      LegacyPiecesSnoc(none, a);
      assert none + [a] == [a];
    }
    assert LegacyPieces([a, b]) == LegacyPieces([a]) + [SplitN(b, ".", 3)] by {
      LegacyPiecesSnoc([a], b);
      assert [a] + [b] == [a, b];
    }
  }

  lemma LegacyPiecesSnoc(names: seq<string>, name: string)
    ensures LegacyPieces(names + [name]) ==
      LegacyPieces(names) + if IsVersionRow(SplitN(name, ".", 3)) then [SplitN(name, ".", 3)] else []
  {
    assert (names + [name])[..|names|] == names;
  }

  lemma ExampleMaxima()
    ensures MaxString(["1", "1"]) == "1" && MaxString(["0", "0"]) == "0" && MaxString(["9", "10"]) == "9"
  {
    assert ["9", "10"][..1] == ["9"];
    assert !OrdinalLess("9", "10");
  }

  lemma ExampleColumns(rows: seq<seq<string>>)
    requires rows == [["1", "0", "9"], ["1", "0", "10"]]
    ensures Piece(rows, 0) == ["1", "1"] && Piece(rows, 1) == ["0", "0"] && Piece(rows, 2) == ["9", "10"]
  {
  }

  lemma ExampleText(s: string, patch: int)
    requires s == "1.0.10" && patch == 9
    ensures "1" + "." + "0" + "." + FormatInt(Wrap32(patch + 1)) == s
  {
    SmallNumbers();
  }

  /** The pieces of "1.0.9" and "1.0.10" give "1.0.10". */
  lemma ExampleFromPieces(rows: seq<seq<string>>, s: string)
    requires rows == [["1", "0", "9"], ["1", "0", "10"]] && s == "1.0.10"
    ensures forall i | 0 <= i < |rows| :: |rows[i]| == 3 && TryParseInt32(rows[i][2]).Some?
    ensures LegacyFromPieces(rows) == Ok(s)
  {
    ExampleNumbers();
    ExampleColumns(rows);
    ExampleMaxima();
    ExampleText(s, 9);
  }

  /**
   * Patches "9" and "10": the string maximum of the patches is "9", so the older
   * computation proposes "1.0.10", a tag that already exists.
   */
  lemma LegacyTagCollides(names: seq<string>)
    requires names == ["1.0.9", "1.0.10"]
    ensures LegacyNextTag(names) == Ok(names[1])
  {
    ExampleTags(names[0], names[1]);
    TwoLongNames(names);
    ExampleRows(names);
    ExampleFromPieces(LegacyPieces(names), names[1]);
    LegacyNextTagPieces(names);
  }

  lemma TwoLongNames(names: seq<string>)
    requires |names| == 2 && |SplitOn(names[0], ".")| >= 3 && |SplitOn(names[1], ".")| >= 3
    ensures forall i | 0 <= i < |names| :: |SplitOn(names[i], ".")| >= 3
  {
  }

  /** With every name in three or more pieces, the older computation works on the rows alone. */
  lemma LegacyNextTagPieces(names: seq<string>)
    requires forall i | 0 <= i < |names| :: |SplitOn(names[i], ".")| >= 3
    ensures LegacyNextTag(names) == LegacyFromPieces(LegacyPieces(names))
  {
  }

  /** Two names that both read as versions yield those versions, in order. */
  lemma ValidTagsPair(a: string, b: string)
    requires ParseTag(a).Some? && ParseTag(b).Some?
    ensures ValidTags([a, b]) == [ParseTag(a).value, ParseTag(b).value]
  {
    var none: seq<string> := [];
    assert Parsed(none) == [];
    ValidTagsSnoc(none, a);
    assert none + [a] == [a];
    ValidTagsSnoc([a], b);
    assert [a] + [b] == [a, b];
  }

  lemma ExampleValid(names: seq<string>)
    requires names == ["1.0.9", "1.0.10"]
    ensures ValidTags(names) == [SemVer(1, 0, 9), SemVer(1, 0, 10)]
  {
    ExampleTags(names[0], names[1]);
    ValidTagsPair(names[0], names[1]);
    assert names == [names[0], names[1]];
  }

  lemma ExampleBump(tags: seq<SemVer>)
    requires tags == [SemVer(1, 0, 9), SemVer(1, 0, 10)]
    ensures MaxBy(tags, Patch) == 10
    ensures NextTagOf(tags) == "1.0.11"
  {
    assert tags[1..] == [SemVer(1, 0, 10)];
    assert MaxBy(tags, Major) == 1 && MaxBy(tags, Minor) == 0;
    assert Bumped(tags) == SemVer(1, 0, 11);
    assert FormatTag(SemVer(1, 0, 11)) == "1.0.11" by {
      SmallNumbers();
      assert "1" + "." + "0" + "." + "11" == "1.0.11";
    }
  }

  /** On the same tags the live computation takes the numeric maximum and proposes "1.0.11", a new tag. */
  lemma CorrectedTagFresh(names: seq<string>)
    requires names == ["1.0.9", "1.0.10"]
    ensures NextTag(names) == "1.0.11"
    ensures forall j | 0 <= j < |names| :: names[j] != NextTag(names)
  {
    ExampleValid(names);
    ExampleBump(ValidTags(names));
  }
}
