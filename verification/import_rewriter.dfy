/** CompileScss.rewriteFile (packages/semi-scss-compile/index.ts): split a
    stylesheet on the `@import './variables.scss'` anchor with a capturing
    regular expression, drop the empty fragments and, when more than one
    fragment is left, splice an extra import in before the last fragment. */
module ImportRewriter {
  import opened Results
  import opened Sequences
  import opened FileSystem
  import opened Options

  /** `.` in a regular expression without the s flag: any character but a line terminator. */
  predicate DotMatches(c: char)
  {
    c != '\n' && c != '\r' && c != '\U{2028}' && c != '\U{2029}'
  }

  /** One alternative of the pattern, `@import <quote>.\/variables.scss<quote>`, at the start of t.
      Both dots are unescaped, so they match any character. */
  predicate AnchorBody(t: string, quote: char)
  {
    && |t| >= 26
    && t[..8] == "@import "
    && t[8] == quote
    && DotMatches(t[9])
    && t[10..20] == "/variables"
    && DotMatches(t[20])
    && t[21..25] == "scss"
    && t[25] == quote
  }

  /** Length of the match the anchor pattern makes at the start of t (the optional `;` is greedy), 0 for none. */
  function AnchorLength(t: string): (n: nat)
    ensures n <= |t|
    ensures n == 0 || n == 26 || n == 27
  {
    if AnchorBody(t, '\'') || AnchorBody(t, '"') then
      (if |t| > 26 && t[26] == ';' then 27 else 26)
    else 0
  }

  /** t is exactly one match of the anchor pattern. */
  predicate IsAnchor(t: string)
  {
    |t| > 0 && AnchorLength(t) == |t|
  }

  /** No match of the anchor pattern starts anywhere in t. */
  predicate AnchorFree(t: string)
  {
    forall i :: 0 <= i < |t| ==> AnchorLength(t[i..]) == 0
  }

  /** The match found at the start of t, cut out of t, is still the same match. */
  lemma AnchorCut(t: string)
    requires AnchorLength(t) > 0
    ensures IsAnchor(t[..AnchorLength(t)])
  {
    var n := AnchorLength(t);
    var a := t[..n];
    assert a[..8] == t[..8] && a[10..20] == t[10..20] && a[21..25] == t[21..25];
    assert AnchorBody(a, '\'') == AnchorBody(t, '\'');
    assert AnchorBody(a, '"') == AnchorBody(t, '"');
  }

  /** `str.split(regex)` with the one capturing group: scanning from q, the
      text since p, then every match found together with its capture. */
  function SplitFrom(s: string, p: nat, q: nat): seq<string>
    requires p <= q <= |s|
    decreases |s| - q
  {
    if q == |s| then [s[p..]]
    else
      var n := AnchorLength(s[q..]);
      if n == 0 then SplitFrom(s, p, q + 1)
      else [s[p..q], s[q..q + n]] + SplitFrom(s, q + n, q + n)
  }

  function Split(s: string): seq<string>
  {
    SplitFrom(s, 0, 0)
  }

  /** `str.split(regex).filter(item => !!item)`. */
  function Fragments(s: string): seq<string>
  {
    Filter(Split(s), f => f != "")
  }

  lemma ConcatStep(before: string, anchor: string, rest: seq<string>, tail: string)
    requires Concat(rest) == tail
    ensures Concat([before, anchor] + rest) == before + anchor + tail
  {
    ConcatAppend([before, anchor], rest);
    ConcatPair(before, anchor);
  }

  lemma SliceThree(s: string, i: nat, j: nat, k: nat)
    requires i <= j <= k <= |s|
    ensures s[i..j] + s[j..k] + s[k..] == s[i..]
  {
  }

  /** Joining the split gives back the text it was split from. */
  lemma {:induction false} SplitFromConcat(s: string, p: nat, q: nat)
    requires p <= q <= |s|
    ensures Concat(SplitFrom(s, p, q)) == s[p..]
    decreases |s| - q
  {
    if q == |s| {
      ConcatOne(s[p..]);
    } else {
      var n := AnchorLength(s[q..]);
      if n == 0 {
        SplitFromConcat(s, p, q + 1);
      } else {
        SplitFromConcat(s, q + n, q + n);
        ConcatStep(s[p..q], s[q..q + n], SplitFrom(s, q + n, q + n), s[q + n..]);
        SliceThree(s, p, q, q + n);
      }
    }
  }

  /** The split has odd length and every odd position holds one whole match. */
  lemma {:induction false} SplitFromAlternates(s: string, p: nat, q: nat)
    requires p <= q <= |s|
    ensures |SplitFrom(s, p, q)| % 2 == 1
    ensures forall i :: 0 <= i < |SplitFrom(s, p, q)| && i % 2 == 1 ==> IsAnchor(SplitFrom(s, p, q)[i])
    decreases |s| - q
  {
    if q < |s| {
      var n := AnchorLength(s[q..]);
      if n == 0 {
        SplitFromAlternates(s, p, q + 1);
      } else {
        SplitFromAlternates(s, q + n, q + n);
        AnchorCut(s[q..]);
        assert s[q..][..n] == s[q..q + n];
        AlternatesStep(s[p..q], s[q..q + n], SplitFrom(s, q + n, q + n));
      }
    }
  }

  /** Prefixing text and one whole match keeps the alternation of SplitFromAlternates. */
  lemma AlternatesStep(before: string, anchor: string, rest: seq<string>)
    requires IsAnchor(anchor) && |rest| % 2 == 1
    requires forall i :: 0 <= i < |rest| && i % 2 == 1 ==> IsAnchor(rest[i])
    ensures |[before, anchor] + rest| % 2 == 1
    ensures forall i :: 0 <= i < |[before, anchor] + rest| && i % 2 == 1 ==> IsAnchor(([before, anchor] + rest)[i])
  {
    var r := [before, anchor] + rest;
    forall i | 0 <= i < |r| && i % 2 == 1 ensures IsAnchor(r[i]) {
      if i > 1 {
        assert r[i] == rest[i - 2];
      }
    }
  }

  /** The last fragment of the split holds no match: the scan passed over all of it. */
  lemma {:induction false} SplitFromLastAnchorFree(s: string, p: nat, q: nat)
    requires p <= q <= |s|
    requires forall j :: p <= j < q ==> AnchorLength(s[j..]) == 0
    ensures |SplitFrom(s, p, q)| > 0
    ensures AnchorFree(SplitFrom(s, p, q)[|SplitFrom(s, p, q)| - 1])
    decreases |s| - q
  {
    if q == |s| {
      forall i | 0 <= i < |s[p..]| ensures AnchorLength(s[p..][i..]) == 0 {
        assert s[p..][i..] == s[p + i..];
      }
    } else {
      var n := AnchorLength(s[q..]);
      if n == 0 {
        SplitFromLastAnchorFree(s, p, q + 1);
      } else {
        SplitFromLastAnchorFree(s, q + n, q + n);
      }
    }
  }

  /** With no match anywhere from p on, the split is the whole remaining text. */
  lemma {:induction false} SplitFromNoMatch(s: string, p: nat, q: nat)
    requires p <= q <= |s|
    requires forall j :: q <= j < |s| ==> AnchorLength(s[j..]) == 0
    ensures SplitFrom(s, p, q) == [s[p..]]
    decreases |s| - q
  {
    if q < |s| {
      SplitFromNoMatch(s, p, q + 1);
    }
  }

  /** A split of length one is the whole remaining text. */
  lemma {:induction false} SplitFromSingle(s: string, p: nat, q: nat)
    requires p <= q <= |s|
    requires |SplitFrom(s, p, q)| == 1
    ensures SplitFrom(s, p, q) == [s[p..]]
    decreases |s| - q
  {
    if q < |s| {
      var n := AnchorLength(s[q..]);
      if n == 0 {
        SplitFromSingle(s, p, q + 1);
      } else {
        assert false;
      }
    }
  }

  /** Split/join round trip (index.ts:135-136, 139): dropping the empty
      fragments and joining the rest gives back the original text exactly. */
  lemma SplitJoinRoundTrip(s: string)
    ensures Concat(Fragments(s)) == s
  {
    SplitFromConcat(s, 0, 0);
    ConcatFilterEmpty(Split(s), f => f != "");
  }

  /** The import line rewriteFile splices in. */
  function LocalImport(extra: string): string
  {
    "\n@import \"" + extra + "\";"
  }

  function Last(xs: seq<string>): string
    requires |xs| > 0
  {
    xs[|xs| - 1]
  }

  /** Where the extra import goes: the start of the final non-empty fragment. */
  function InsertionPoint(s: string): (k: nat)
    requires |Fragments(s)| > 0
    ensures k <= |s| && s[k..] == Last(Fragments(s))
  {
    var f := Fragments(s);
    SplitJoinRoundTrip(s);
    assert Concat(f) == Concat(f[..|f| - 1]) + Last(f);
    |s| - |Last(f)|
  }

  /** What rewriteFile returns for file text `content`: unchanged unless an
      extra import is configured and more than one fragment is left, and
      otherwise the text with the import line inserted at InsertionPoint. */
  function Rewritten(content: string, extra: Option<string>): string
  {
    if Truthy(extra) && |Fragments(content)| > 1 then
      var k := InsertionPoint(content);
      content[..k] + LocalImport(extra.value) + content[k..]
    else content
  }

  /** rewriteFile: read the file (readFileSync throws on a missing path),
      then splice the extra import into the fragment list and join it. */
  method RewriteFile(fs: Snapshot, filePath: Path, extraImport: Option<string>) returns (r: Result<string, FsError>)
    ensures r.Err? <==> !IsFile(fs, filePath)
    ensures r.Err? ==> ReadFile(fs, filePath) == Err(r.error)
    ensures !Truthy(extraImport) ==> r == ReadFile(fs, filePath)
    ensures r.Ok? ==> r.value == Rewritten(Content(fs, filePath), extraImport)
  {
    var read := ReadFile(fs, filePath);
    if read.Err? {
      return Err(read.error);
    }
    var fileStr := read.value;
    if Truthy(extraImport) {
      var localImport := LocalImport(extraImport.value);
      var fileSplit := Fragments(fileStr);
      if |fileSplit| > 1 {
        ghost var original := fileSplit;
        fileSplit := fileSplit[..|fileSplit| - 1] + [localImport] + fileSplit[|fileSplit| - 1..];
        fileStr := Concat(fileSplit);
        SpliceBeforeLast(original, localImport);
        SplitJoinRoundTrip(read.value);
      }
    }
    return Ok(fileStr);
  }

  /** Joining after splicing x in before the last fragment. */
  lemma SpliceBeforeLast(f: seq<string>, x: string)
    requires |f| > 0
    ensures Concat(f[..|f| - 1] + [x] + f[|f| - 1..]) == Concat(f[..|f| - 1]) + x + Last(f)
    ensures Concat(f) == Concat(f[..|f| - 1]) + Last(f)
  {
    var init := f[..|f| - 1];
    assert f[|f| - 1..] == [Last(f)];
    ConcatAppend(init + [x], [Last(f)]);
    ConcatAppend(init, [x]);
    assert [x][..0] == [] && [Last(f)][..0] == [];
  }

  /** Exactly one insertion (index.ts:133, 138-139): the result is the
      fragments before the last, the import line, then the last fragment;
      it is longer by the import line alone, and cutting that line out at
      the insertion point gives back the input. */
  lemma RewriteInsertsOnce(content: string, extra: Option<string>)
    requires Truthy(extra) && |Fragments(content)| > 1
    ensures var f := Fragments(content);
      Rewritten(content, extra) == Concat(f[..|f| - 1]) + LocalImport(extra.value) + Last(f)
    ensures |Rewritten(content, extra)| == |content| + |LocalImport(extra.value)|
    ensures var k, r := InsertionPoint(content), Rewritten(content, extra);
      r[k..k + |LocalImport(extra.value)|] == LocalImport(extra.value)
      && r[..k] + r[k + |LocalImport(extra.value)|..] == content
  {
    var f := Fragments(content);
    SpliceBeforeLast(f, LocalImport(extra.value));
    SplitJoinRoundTrip(content);
    var k := InsertionPoint(content);
    assert content == content[..k] + content[k..];
  }

  /** A text containing a match that is not itself one whole match splits into at least two fragments. */
  lemma FragmentsOfAnchored(s: string)
    requires !AnchorFree(s) && !IsAnchor(s)
    ensures |Fragments(s)| > 1
  {
    var r := Split(s);
    SplitFromAlternates(s, 0, 0);
    if |r| == 1 {
      SplitFromSingle(s, 0, 0);
      SplitFromLastAnchorFree(s, 0, 0);
      assert false;
    } else if |r| >= 5 {
      assert IsAnchor(r[1]) && IsAnchor(r[3]);
      FilterKeepsTwo(r, 1, 3, f => f != "");
    } else {
      FragmentsOfThree(s);
    }
  }

  /** The three-way split case of FragmentsOfAnchored: text, match, text. */
  lemma FragmentsOfThree(s: string)
    requires !IsAnchor(s) && |Split(s)| == 3
    ensures |Fragments(s)| > 1
  {
    var r := Split(s);
    SplitFromAlternates(s, 0, 0);
    SplitFromConcat(s, 0, 0);
    assert IsAnchor(r[1]);
    assert r == [r[0], r[1], r[2]];
    ConcatTriple(r[0], r[1], r[2]);
    if r[0] != "" {
      FilterKeepsTwo(r, 0, 1, f => f != "");
    } else if r[2] != "" {
      FilterKeepsTwo(r, 1, 2, f => f != "");
    } else {
      assert false;
    }
  }

  /** A text with no match keeps at most one fragment. */
  lemma FragmentsOfAnchorFree(s: string)
    requires AnchorFree(s)
    ensures |Fragments(s)| <= 1
  {
    SplitFromNoMatch(s, 0, 0);
  }

  /** A text that is exactly one match keeps exactly one fragment, the match. */
  lemma FragmentsOfWholeAnchor(s: string)
    requires IsAnchor(s)
    ensures Fragments(s) == [s]
  {
    assert s[0..] == s;
    assert AnchorLength(s[0..]) == |s|;
    assert s[|s|..] == "";
    assert SplitFrom(s, |s|, |s|) == [""];
    assert Split(s) == [s[0..0], s[0..|s|]] + [""];
    assert s[0..0] == "" && s[0..|s|] == s;
    assert Split(s) == ["", s, ""];
    assert ["", s, ""] == ["", s] + [""];
    FilterAppend(["", s], [""], f => f != "");
    FilterAppend([""], [s], f => f != "");
    FilterSingleton("", f => f != "");
    FilterSingleton(s, f => f != "");
  }

  /** When rewriting changes the text (index.ts:132, 137): exactly when an
      extra import is set, the text contains a match of the anchor pattern,
      and the text is not that one match alone. Otherwise, in particular
      when no anchor is found, the content comes back unchanged. */
  lemma RewriteChangesIff(content: string, extra: Option<string>)
    ensures Rewritten(content, extra) != content
        <==> Truthy(extra) && !AnchorFree(content) && !IsAnchor(content)
  {
    if Truthy(extra) {
      if AnchorFree(content) {
        FragmentsOfAnchorFree(content);
      } else if IsAnchor(content) {
        FragmentsOfWholeAnchor(content);
      } else {
        FragmentsOfAnchored(content);
        RewriteInsertsOnce(content, extra);
      }
    }
  }

  /** Insertion position (index.ts:138): with the split's last match
      `anchor` and the anchor-free text `after` that follows it, the import
      goes right after the final anchor, or, when the file ends with that
      anchor, right before it. Earlier anchors get nothing. */
  lemma RewriteAtFinalGap(content: string, extra: Option<string>)
    requires Truthy(extra) && |Fragments(content)| > 1
    ensures |Split(content)| >= 3
    ensures var r := Split(content);
      var before, anchor, after := Concat(r[..|r| - 2]), r[|r| - 2], r[|r| - 1];
      && content == before + anchor + after
      && IsAnchor(anchor)
      && AnchorFree(after)
      && Rewritten(content, extra) ==
           if after == "" then before + LocalImport(extra.value) + anchor
           else before + anchor + LocalImport(extra.value) + after
  {
    var r := Split(content);
    FinalGapShape(content);
    var init, anchor, after := r[..|r| - 2], r[|r| - 2], r[|r| - 1];
    assert r == init + [anchor] + [after];
    var imp := LocalImport(extra.value);
    RewriteInsertsOnce(content, extra);
    var f := Fragments(content);
    FinalGapFragments(init, anchor, after);
    if after == "" {
      assert f[..|f| - 1] == Filter(init, f => f != "");
    } else {
      assert f[..|f| - 1] == Filter(init, f => f != "") + [anchor];
      ConcatAppend(Filter(init, f => f != ""), [anchor]);
    }
  }

  /** The split of a text that leaves two fragments ends with a match and
      the anchor-free rest, and joins back to the text. */
  lemma FinalGapShape(content: string)
    requires |Fragments(content)| > 1
    ensures |Split(content)| >= 3
    ensures var r := Split(content);
      && content == Concat(r[..|r| - 2]) + r[|r| - 2] + r[|r| - 1]
      && IsAnchor(r[|r| - 2])
      && AnchorFree(r[|r| - 1])
  {
    var r := Split(content);
    assert |Fragments(content)| <= |r|;
    SplitFromAlternates(content, 0, 0);
    assert |r| >= 3 && (|r| - 2) % 2 == 1;
    assert IsAnchor(r[|r| - 2]);
    SplitFromLastAnchorFree(content, 0, 0);
    SplitFromConcat(content, 0, 0);
    ConcatLastTwo(r);
  }

  /** Joining a list of at least two strings, with its last two split off. */
  lemma ConcatLastTwo(r: seq<string>)
    requires |r| >= 2
    ensures Concat(r) == Concat(r[..|r| - 2]) + r[|r| - 2] + r[|r| - 1]
  {
    var front := r[..|r| - 1];
    assert front[..|front| - 1] == r[..|r| - 2];
    assert Concat(front) == Concat(r[..|r| - 2]) + r[|r| - 2];
  }

  /** Dropping the empty fragments of text, a match and the final text:
      the match stays, the final text stays when it is not empty, and the
      dropped fragments join to nothing. */
  lemma FinalGapFragments(init: seq<string>, anchor: string, after: string)
    requires anchor != ""
    ensures Concat(Filter(init, f => f != "")) == Concat(init)
    ensures Filter(init + [anchor] + [after], f => f != "") ==
      if after == "" then Filter(init, f => f != "") + [anchor]
      else Filter(init, f => f != "") + [anchor] + [after]
  {
    FilterAppend(init + [anchor], [after], f => f != "");
    FilterAppend(init, [anchor], f => f != "");
    FilterSingleton(anchor, f => f != "");
    FilterSingleton(after, f => f != "");
    ConcatFilterEmpty(init, f => f != "");
  }

  /** The literal dots match any character but a line terminator, and
      either quote and an optional `;` are accepted: `@import 'x/variables-scss'`
      is an anchor as much as `@import "./variables.scss";`. */
  lemma AnchorForms(quote: char, dot1: char, dot2: char, semicolon: bool)
    requires quote == '\'' || quote == '"'
    requires DotMatches(dot1) && DotMatches(dot2)
    ensures IsAnchor("@import " + [quote, dot1] + "/variables" + [dot2] + "scss" + [quote] + (if semicolon then ";" else ""))
  {
    var body := "@import " + [quote, dot1] + "/variables" + [dot2] + "scss" + [quote];
    var t := body + (if semicolon then ";" else "");
    assert |body| == 26;
    assert t[..8] == "@import ";
    assert t[8] == quote && t[9] == dot1 && t[20] == dot2 && t[25] == quote;
    assert t[10..20] == "/variables";
    assert t[21..25] == "scss";
    assert AnchorBody(t, quote);
  }

  /** The converse: a line terminator at either dot position, an opening
      character that is not a quote, or a closing quote that differs from
      the opening one, means no match starts at the beginning of t. */
  lemma AnchorRejects(t: string)
    requires |t| >= 26
    requires || !DotMatches(t[9]) || !DotMatches(t[20])
             || (t[8] != '\'' && t[8] != '"') || t[25] != t[8]
    ensures AnchorLength(t) == 0
  {
  }
}
