/**
 * The line logic of DataGen.GetIndex and DataGen.ReplaceReference (DataGen.cs:278-297):
 * after a generated TypeScript file has moved to the "extra" folder, the first line
 * that names it and contains "from" has its './X' module path rewritten to
 * './../extra/X'. Reading, listing and writing the files are outside the model; a
 * file is its sequence of lines.
 */
module References {
  import opened Wrappers
  import opened Text

  /** `First()` on an empty sequence: no line names the file and contains "from". */
  datatype LineError = NoSourceLine

  /** The line names `file` and contains "from". */
  predicate IsSourceLine(line: string, file: string) {
    Contains(line, file) && Contains(line, "from")
  }

  /** The line names `file` and contains "import". */
  predicate IsImportLine(line: string, file: string) {
    Contains(line, file) && Contains(line, "import")
  }

  /** GetIndex: the position of the first source line, if any (`None` is the exception of `First()`). */
  function GetIndex(lines: seq<string>, file: string): (r: Option<nat>)
    ensures r.Some? ==> r.value < |lines| && IsSourceLine(lines[r.value], file)
    ensures r.Some? ==> forall j | 0 <= j < r.value :: !IsSourceLine(lines[j], file)
    ensures r.None? <==> forall j | 0 <= j < |lines| :: !IsSourceLine(lines[j], file)
  {
    if lines == [] then None
    else if IsSourceLine(lines[0], file) then Some(0)
    else match GetIndex(lines[1..], file)
      case None => None
      case Some(k) => Some(k + 1)
  }

  /** `'./X'`, the module path of a sibling file. */
  function SiblingPath(file: string): string {
    "'./" + file + "'"
  }

  /** `'./../extra/X'`, the module path of the moved file. */
  function ExtraPath(file: string): string {
    "'./../extra/" + file + "'"
  }

  /** A string that contains `sep` splits into at least two pieces. */
  lemma {:induction false} SplitOnFound(t: string, sep: string)
    requires |sep| > 0 && Contains(t, sep)
    ensures |SplitOn(t, sep)| >= 2
    decreases |t|
  {
    var i: nat :| i <= |t| - |sep| && OccursAt(t, sep, i);
    if t[..|sep|] != sep {
      assert i > 0;
      assert OccursAt(t[1..], sep, i - 1) by {
        assert t[1..][i - 1..i - 1 + |sep|] == t[i..i + |sep|];
      }
      SplitOnFound(t[1..], sep);
    }
  }

  /** A string without `sep` splits into itself alone. */
  lemma {:induction false} SplitOnAbsent(t: string, sep: string)
    requires |sep| > 0 && !Contains(t, sep)
    ensures SplitOn(t, sep) == [t]
    decreases |t|
  {
    if |t| >= |sep| {
      assert !OccursAt(t, sep, 0);
      assert !Contains(t[1..], sep) by {
        forall i: nat | i <= |t[1..]| - |sep| ensures !OccursAt(t[1..], sep, i) {
          assert t[1..][i..i + |sep|] == t[i + 1..i + 1 + |sep|];
          assert !OccursAt(t, sep, i + 1);
        }
      }
      SplitOnAbsent(t[1..], sep);
      assert [t[0]] + t[1..] == t;
    }
  }

  /** No occurrence of `sep` starts inside `p` after its first character either. */
  lemma NoOccurrenceInTail(p: string, sep: string, q: string)
    requires |p| > 0
    requires forall i | 0 <= i < |p| :: !OccursAt(p + sep + q, sep, i)
    ensures forall i | 0 <= i < |p[1..]| :: !OccursAt(p[1..] + sep + q, sep, i)
  {
    var t := p + sep + q;
    assert t[1..] == p[1..] + sep + q;
    forall i | 0 <= i < |p[1..]| ensures !OccursAt(p[1..] + sep + q, sep, i) {
      assert t[1..][i..i + |sep|] == t[i + 1..i + 1 + |sep|];
      assert !OccursAt(t, sep, i + 1);
    }
  }

  /** Splitting `p sep q`, where no occurrence of `sep` starts inside `p`, yields `p` and then the pieces of `q`. */
  lemma {:induction false} SplitOnFirst(p: string, sep: string, q: string)
    requires |sep| > 0
    requires forall i | 0 <= i < |p| :: !OccursAt(p + sep + q, sep, i)
    ensures SplitOn(p + sep + q, sep) == [p] + SplitOn(q, sep)
    decreases |p|
  {
    var t := p + sep + q;
    if p == [] {
      assert t == sep + q && t[..|sep|] == sep && t[|sep|..] == q;
    } else {
      assert !OccursAt(t, sep, 0);
      assert t[1..] == p[1..] + sep + q;
      NoOccurrenceInTail(p, sep, q);
      SplitOnFirst(p[1..], sep, q);
      assert [t[0]] + p[1..] == p;
    }
  }

  /** Replacing in `x pat y`, where no occurrence of `pat` starts inside `x`, replaces that `pat` first. */
  lemma {:induction false} ReplaceFirst(x: string, pat: string, rep: string, y: string)
    requires |pat| > 0
    requires forall i | 0 <= i < |x| :: !OccursAt(x + pat + y, pat, i)
    ensures ReplaceAll(x + pat + y, pat, rep) == x + rep + ReplaceAll(y, pat, rep)
    decreases |x|
  {
    var t := x + pat + y;
    if x == [] {
      assert t == pat + y && t[..|pat|] == pat && t[|pat|..] == y;
    } else {
      NoOccurrenceInTail(x, pat, y);
      ReplaceFirst(x[1..], pat, rep, y);
      ReplaceSkipsFirst(x, pat, rep, y);
      assert [x[0]] + (x[1..] + rep + ReplaceAll(y, pat, rep)) == x + rep + ReplaceAll(y, pat, rep);
    }
  }

  /** Without an occurrence at the start, the first character is kept and the rest is replaced. */
  lemma ReplaceSkipsFirst(x: string, pat: string, rep: string, y: string)
    requires |pat| > 0 && |x| > 0 && !OccursAt(x + pat + y, pat, 0)
    ensures ReplaceAll(x + pat + y, pat, rep) == [x[0]] + ReplaceAll(x[1..] + pat + y, pat, rep)
  {
    var t := x + pat + y;
    assert t[1..] == x[1..] + pat + y;
    assert t[0] == x[0];
  }

  /**
   * `$"{split[0]} from {split[1].Replace(...)}"` with `split = line.Split("from")`: the text
   * before the first "from", then " from ", then the text up to the second "from" (if
   * any) with the sibling path redirected. Anything after a second "from" is dropped.
   */
  function RewriteLine(line: string, file: string): (r: string)
    requires Contains(line, "from")
  {
    SplitOnFound(line, "from");
    var split := SplitOn(line, "from");
    split[0] + " from " + ReplaceAll(split[1], SiblingPath(file), ExtraPath(file))
  }

  /**
   * ReplaceReference on one file: untouched (`None`) when no line names the file and
   * contains "import"; otherwise the first source line is rewritten, or the exception
   * of `First()` when there is none.
   */
  function RewriteFile(lines: seq<string>, file: string): (r: Result<Option<seq<string>>, LineError>)
    ensures r.Ok? && r.value.None? <==> forall j | 0 <= j < |lines| :: !IsImportLine(lines[j], file)
    ensures r.Err? <==>
      (exists j | 0 <= j < |lines| :: IsImportLine(lines[j], file)) &&
      (forall j | 0 <= j < |lines| :: !IsSourceLine(lines[j], file))
    ensures r.Ok? && r.value.Some? ==>
      var k := GetIndex(lines, file).value;
      && |r.value.value| == |lines|
      && IsSourceLine(lines[k], file) && (forall j | 0 <= j < k :: !IsSourceLine(lines[j], file))
      && r.value.value[k] == RewriteLine(lines[k], file)
      && (forall j | 0 <= j < |lines| && j != k :: r.value.value[j] == lines[j])
  {
    if forall j | 0 <= j < |lines| :: !IsImportLine(lines[j], file) then Ok(None)
    else match GetIndex(lines, file)
      case None => Err(NoSourceLine)
      case Some(k) => Ok(Some(lines[k := RewriteLine(lines[k], file)]))
  }

  /**
   * ReplaceReference's body for one file, in place: `lines[index]` is overwritten and
   * the result says whether the file is written back.
   */
  method ReplaceInFile(lines: array<string>, file: string) returns (r: Result<bool, LineError>)
    modifies lines
    ensures match RewriteFile(old(lines[..]), file)
      case Err(e) => r == Err(e) && lines[..] == old(lines[..])
      case Ok(None) => r == Ok(false) && lines[..] == old(lines[..])
      case Ok(Some(rewritten)) => r == Ok(true) && lines[..] == rewritten
  {
    if exists j | 0 <= j < lines.Length :: IsImportLine(lines[j], file) {
      var index := GetIndex(lines[..], file);
      if index.None? {
        return Err(NoSourceLine);
      }
      lines[index.value] := RewriteLine(lines[index.value], file);
      return Ok(true);
    }
    return Ok(false);
  }

  // ---- properties of the rewrite ----

  /** An import whose only "from" is its keyword has its sibling path redirected and nothing else changed but the spacing. */
  lemma RewriteSingleFrom(p: string, q: string, file: string)
    requires forall i | 0 <= i < |p| :: !OccursAt(p + "from" + q, "from", i)
    requires !Contains(q, "from")
    ensures Contains(p + "from" + q, "from")
    ensures RewriteLine(p + "from" + q, file) == p + " from " + ReplaceAll(q, SiblingPath(file), ExtraPath(file))
  {
    var line := p + "from" + q;
    assert OccursAt(line, "from", |p|) by {
      assert line[|p|..|p| + 4] == "from";
    }
    SplitOnFirst(p, "from", q);
    SplitOnAbsent(q, "from");
  }

  /** A line whose only "from" is its keyword and whose tail lacks './X' keeps its text; only the spacing changes. */
  lemma RewriteWithoutSibling(p: string, q: string, file: string)
    requires forall i | 0 <= i < |p| :: !OccursAt(p + "from" + q, "from", i)
    requires !Contains(q, "from") && !Contains(q, SiblingPath(file))
    ensures Contains(p + "from" + q, "from")
    ensures RewriteLine(p + "from" + q, file) == p + " from " + q
  {
    RewriteSingleFrom(p, q, file);
    ReplaceAbsent(q, SiblingPath(file), ExtraPath(file));
  }

  /** The tail ` './X';` of a generated import becomes ` './../extra/X';`. */
  lemma RedirectTail(file: string)
    ensures ReplaceAll(" " + SiblingPath(file) + ";", SiblingPath(file), ExtraPath(file)) == " " + ExtraPath(file) + ";"
  {
    var pat := SiblingPath(file);
    assert !OccursAt(" " + pat + ";", pat, 0) by {
      assert (" " + pat + ";")[0] == ' ' && pat[0] == '\'';
    }
    ReplaceFirst(" ", pat, ExtraPath(file), ";");
  }

  /**
   * A generated import `p from './X';` (no "from" inside `p` or in the path) becomes
   * `p from './../extra/X';`, with the spaces around "from" doubled.
   */
  lemma RedirectImport(p: string, file: string)
    requires forall i | 0 <= i < |p| :: !OccursAt(p + "from" + " " + SiblingPath(file) + ";", "from", i)
    requires !Contains(" " + SiblingPath(file) + ";", "from")
    ensures Contains(p + "from" + " " + SiblingPath(file) + ";", "from")
    ensures RewriteLine(p + "from" + " " + SiblingPath(file) + ";", file) == p + " from " + " " + ExtraPath(file) + ";"
  {
    var q := " " + SiblingPath(file) + ";";
    assert p + "from" + " " + SiblingPath(file) + ";" == p + "from" + q;
    RewriteSingleFrom(p, q, file);
    RedirectTail(file);
  }
}
