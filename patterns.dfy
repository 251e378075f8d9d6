/**
 * Hand models of the regular expressions the question loaders use:
 * `split(/<!--([^>]+)-->/)`, the attribute patterns `name="([^"]+)"` and
 * `max-select="(\d+)"`, and the line prefixes `^\s*-\s*` and
 * `^\s*placeholder:\s*`. Each model follows the regular expression's
 * matching rules: leftmost match, greedy quantifiers with backtracking.
 */
module Patterns {
  import opened Wrappers
  import opened Decimal
  import opened JsStrings

  // ---------------------------------------------------------------------
  // split(/<!--([^>]+)-->/)
  // ---------------------------------------------------------------------

  /** The first '>' at or after position `from`. */
  function NextClose(s: string, from: nat): (r: Option<nat>)
    requires from <= |s|
    ensures r.Some? ==> from <= r.value < |s| && s[r.value] == '>' && forall j :: from <= j < r.value ==> s[j] != '>'
    ensures r.None? ==> forall j :: from <= j < |s| ==> s[j] != '>'
    decreases |s| - from
  {
    if from == |s| then None
    else if s[from] == '>' then Some(from)
    else NextClose(s, from + 1)
  }

  /** The comment opener "<!--" at position `q`. */
  predicate OpensAt(s: string, q: nat) {
    q + 4 <= |s| && s[q..q + 4] == "<!--"
  }

  /**
   * A match of `<!--([^>]+)-->` starting at `q`, given by the position of its
   * closing '>'. `[^>]+` runs up to the first '>' and gives back characters
   * until "-->" follows, so the match closes at that first '>' exactly when
   * it is preceded by "--" with at least one character before them.
   */
  function CommentAt(s: string, q: nat): (r: Option<nat>)
    requires q <= |s|
    ensures r.Some? ==> q + 7 <= r.value < |s| && s[q..q + 4] == "<!--" && s[r.value - 2..r.value + 1] == "-->"
    ensures r.Some? ==> forall j :: q + 4 <= j < r.value - 2 ==> s[j] != '>'
  {
    if OpensAt(s, q) then
      match NextClose(s, q + 4)
      case None => None
      case Some(m) => if m >= q + 7 && s[m - 2] == '-' && s[m - 1] == '-' then Some(m) else None
    else None
  }

  /** The first '>' from `from` on is found wherever it is. */
  lemma {:induction false} NextCloseAt(s: string, from: nat, m: nat)
    requires from <= m < |s| && s[m] == '>'
    requires forall j :: from <= j < m ==> s[j] != '>'
    ensures NextClose(s, from) == Some(m)
    decreases m - from
  {
    if from < m {
      NextCloseAt(s, from + 1, m);
    }
  }

  /**
   * The converse of `CommentAt`'s contract: an opener at `q`, a non-empty run
   * without '>', then "-->" closing at `m`, is a match closing at `m`.
   */
  lemma CommentFound(s: string, q: nat, m: nat)
    requires q + 7 <= m < |s|
    requires s[q..q + 4] == "<!--" && s[m - 2..m + 1] == "-->"
    requires forall j :: q + 4 <= j < m - 2 ==> s[j] != '>'
    ensures CommentAt(s, q) == Some(m)
  {
    assert s[m - 2] == '-' && s[m - 1] == '-' && s[m] == '>' by {
      assert s[m - 2..m + 1][0] == s[m - 2] && s[m - 2..m + 1][1] == s[m - 1] && s[m - 2..m + 1][2] == s[m];
    }
    NextCloseAt(s, q + 4, m);
  }

  /** A match inside the slice `s[a..b]` is a match of `s` at the same place. */
  lemma CommentInPiece(s: string, a: nat, b: nat, x: nat)
    requires a <= b <= |s| && x <= b - a
    ensures CommentAt(s[a..b], x).Some? ==> CommentAt(s, a + x) == Some(a + CommentAt(s[a..b], x).value)
  {
    var t := s[a..b];
    if CommentAt(t, x).Some? {
      var m := CommentAt(t, x).value;
      var opener, closer := s[a + x..a + x + 4], s[a + m - 2..a + m + 1];
      assert opener == t[x..x + 4] by {
        assert forall i :: 0 <= i < 4 ==> opener[i] == t[x + i];
      }
      assert closer == t[m - 2..m + 1] by {
        assert forall i :: 0 <= i < 3 ==> closer[i] == t[m - 2 + i];
      }
      forall j | a + x + 4 <= j < a + m - 2
        ensures s[j] != '>'
      {
        assert s[j] == t[j - a];
      }
      CommentFound(s, a + x, a + m);
    }
  }

  /**
   * The split loop from position `q`, the current piece having started at
   * `p`: each match ends a piece and contributes its capture; the rest of the
   * string is the last piece.
   */
  function SplitFrom(s: string, p: nat, q: nat): (parts: seq<string>)
    requires p <= q <= |s|
    ensures |parts| % 2 == 1
    decreases |s| - q
  {
    if q == |s| then [s[p..]]
    else match CommentAt(s, q)
      case Some(m) => [s[p..q], s[q + 4..m - 2]] + SplitFrom(s, m + 1, m + 1)
      case None => SplitFrom(s, p, q + 1)
  }

  /** `s.split(/<!--([^>]+)-->/)`: text pieces interleaved with the comment contents. */
  function SplitComments(s: string): (parts: seq<string>)
    ensures |parts| % 2 == 1
  {
    SplitFrom(s, 0, 0)
  }

  /** The pieces put back together, each capture inside its comment markers. */
  function Rejoin(parts: seq<string>): string
    requires |parts| % 2 == 1
  {
    if |parts| == 1 then parts[0] else parts[0] + "<!--" + parts[1] + "-->" + Rejoin(parts[2..])
  }

  lemma {:induction false} SplitFromRejoin(s: string, p: nat, q: nat)
    requires p <= q <= |s|
    ensures Rejoin(SplitFrom(s, p, q)) == s[p..]
    decreases |s| - q
  {
    if q < |s| {
      match CommentAt(s, q)
      case Some(m) =>
        SplitFromRejoin(s, m + 1, m + 1);
        var parts := SplitFrom(s, p, q);
        assert parts[2..] == SplitFrom(s, m + 1, m + 1);
        CommentSlices(s, p, q, m);
      case None =>
        SplitFromRejoin(s, p, q + 1);
    }
  }

  /** The text from `p` around a comment closing at `m`, cut into its five slices. */
  lemma CommentSlices(s: string, p: nat, q: nat, m: nat)
    requires p <= q && q + 7 <= m < |s|
    requires s[q..q + 4] == "<!--" && s[m - 2..m + 1] == "-->"
    ensures s[p..] == s[p..q] + "<!--" + s[q + 4..m - 2] + "-->" + s[m + 1..]
  {
    SliceSplit(s, p, q, |s|);
    SliceSplit(s, q, q + 4, |s|);
    SliceSplit(s, q + 4, m - 2, |s|);
    SliceSplit(s, m - 2, m + 1, |s|);
  }

  lemma SliceSplit(s: string, a: nat, b: nat, c: nat)
    requires a <= b <= c <= |s|
    ensures s[a..c] == s[a..b] + s[b..c]
  {
  }

  /** Splitting loses nothing: the pieces and captures rebuild the text. */
  lemma SplitRejoin(s: string)
    ensures Rejoin(SplitComments(s)) == s
  {
    SplitFromRejoin(s, 0, 0);
  }

  /** Every capture, at an odd position `2j + 1`, is non-empty and holds no '>'. */
  lemma {:induction false} SplitFromCaptures(s: string, p: nat, q: nat)
    requires p <= q <= |s|
    ensures forall j :: 0 <= j && 2 * j + 1 < |SplitFrom(s, p, q)| ==>
      SplitFrom(s, p, q)[2 * j + 1] != "" && '>' !in SplitFrom(s, p, q)[2 * j + 1]
    decreases |s| - q
  {
    if q < |s| {
      match CommentAt(s, q)
      case Some(m) =>
        SplitFromCaptures(s, m + 1, m + 1);
        var parts := SplitFrom(s, p, q);
        var rest := SplitFrom(s, m + 1, m + 1);
        forall j | 0 <= j && 2 * j + 1 < |parts| ensures parts[2 * j + 1] != "" && '>' !in parts[2 * j + 1] {
          if j == 0 {
            assert parts[1] == s[q + 4..m - 2];
          } else {
            assert parts[2 * j + 1] == rest[2 * (j - 1) + 1];
          }
        }
      case None =>
        SplitFromCaptures(s, p, q + 1);
    }
  }

  lemma SplitCaptures(s: string)
    ensures forall j :: 0 <= j && 2 * j + 1 < |SplitComments(s)| ==>
      SplitComments(s)[2 * j + 1] != "" && '>' !in SplitComments(s)[2 * j + 1]
  {
    SplitFromCaptures(s, 0, 0);
  }

  /**
   * The text pieces, at even positions, hold no match: from `p` on the loop
   * cuts at every match, the leftmost first.
   */
  lemma {:induction false} SplitFromTextFree(s: string, p: nat, q: nat)
    requires p <= q <= |s|
    requires forall x :: p <= x < q ==> CommentAt(s, x).None?
    ensures forall j, x :: 0 <= j && 2 * j < |SplitFrom(s, p, q)| && 0 <= x <= |SplitFrom(s, p, q)[2 * j]| ==>
      CommentAt(SplitFrom(s, p, q)[2 * j], x).None?
    decreases |s| - q
  {
    var parts := SplitFrom(s, p, q);
    if q == |s| {
      forall x | 0 <= x <= |s| - p
        ensures CommentAt(s[p..], x).None?
      {
        CommentInPiece(s, p, |s|, x);
        assert s[p..|s|] == s[p..];
      }
    } else {
      match CommentAt(s, q)
      case Some(m) =>
        SplitFromTextFree(s, m + 1, m + 1);
        var rest := SplitFrom(s, m + 1, m + 1);
        forall j, x | 0 <= j && 2 * j < |parts| && 0 <= x <= |parts[2 * j]|
          ensures CommentAt(parts[2 * j], x).None?
        {
          if j == 0 {
            CommentInPiece(s, p, q, x);
          } else {
            assert parts[2 * j] == rest[2 * (j - 1)];
          }
        }
      case None =>
        SplitFromTextFree(s, p, q + 1);
    }
  }

  /** No text piece of the split holds a comment, so the split cut at every one. */
  lemma SplitTextFree(s: string)
    ensures forall j, x :: 0 <= j && 2 * j < |SplitComments(s)| && 0 <= x <= |SplitComments(s)[2 * j]| ==>
      CommentAt(SplitComments(s)[2 * j], x).None?
  {
    SplitFromTextFree(s, 0, 0);
  }

  /** A text with no comment marker splits into itself alone. */
  lemma {:induction false} SplitFromNoComment(s: string, p: nat, q: nat)
    requires p <= q <= |s|
    requires forall j :: q <= j <= |s| ==> !OpensAt(s, j)
    ensures SplitFrom(s, p, q) == [s[p..]]
    decreases |s| - q
  {
    if q < |s| {
      SplitFromNoComment(s, p, q + 1);
    }
  }

  lemma SplitNoComment(s: string)
    requires forall j :: 0 <= j <= |s| ==> !OpensAt(s, j)
    ensures SplitComments(s) == [s]
  {
    SplitFromNoComment(s, 0, 0);
  }

  // ---------------------------------------------------------------------
  // header.match(/name="([^"]+)"/) and header.match(/max-select="(\d+)"/)
  // ---------------------------------------------------------------------

  /** The value characters of an attribute pattern: `[^"]`, or `\d` for the digit pattern. */
  predicate ValueChar(c: char, digitsOnly: bool) {
    if digitsOnly then IsDigit(c) else c != '"'
  }

  /** The length of the run of value characters starting at `from`. */
  function RunLength(s: string, from: nat, digitsOnly: bool): (n: nat)
    requires from <= |s|
    ensures from + n <= |s|
    ensures forall j :: from <= j < from + n ==> ValueChar(s[j], digitsOnly)
    ensures from + n < |s| ==> !ValueChar(s[from + n], digitsOnly)
    decreases |s| - from
  {
    if from < |s| && ValueChar(s[from], digitsOnly) then 1 + RunLength(s, from + 1, digitsOnly) else 0
  }

  /**
   * The capture of `lit` + `(class+)` + `"` matched at `q`. The greedy run
   * cannot end early, since '"' is not a value character, so the match is the
   * whole run, which must be non-empty and followed by '"'.
   */
  function AttrAt(s: string, lit: string, digitsOnly: bool, q: nat): (r: Option<string>)
    requires q <= |s|
    ensures r.Some? ==> StartsWith(s[q..], lit + r.value + "\"")
    ensures r.Some? ==> r.value != "" && forall j :: 0 <= j < |r.value| ==> ValueChar(r.value[j], digitsOnly)
  {
    if StartsWith(s[q..], lit) then
      var start := q + |lit|;
      var n := RunLength(s, start, digitsOnly);
      if n >= 1 && start + n < |s| && s[start + n] == '"' then
        var v := s[start..start + n];
        assert s[q..][..|lit + v + "\""|] == lit + v + "\"" by {
          assert s[q..][..|lit|] == lit;
          assert s[q..start + n + 1] == s[q..start] + s[start..start + n] + s[start + n..start + n + 1];
        }
        Some(v)
      else None
    else None
  }

  /** The leftmost position from `q` on where the pattern matches. */
  function FirstAttrAt(s: string, lit: string, digitsOnly: bool, q: nat): (r: Option<nat>)
    requires q <= |s|
    ensures r.Some? ==> q <= r.value <= |s| && AttrAt(s, lit, digitsOnly, r.value).Some?
    ensures r.Some? ==> forall j :: q <= j < r.value ==> AttrAt(s, lit, digitsOnly, j).None?
    ensures r.None? ==> forall j :: q <= j <= |s| ==> AttrAt(s, lit, digitsOnly, j).None?
    decreases |s| - q
  {
    if AttrAt(s, lit, digitsOnly, q).Some? then Some(q)
    else if q == |s| then None
    else FirstAttrAt(s, lit, digitsOnly, q + 1)
  }

  /** `q` is the leftmost position where the pattern matches. */
  predicate LeftmostAttr(s: string, lit: string, digitsOnly: bool, q: nat) {
    q <= |s| && AttrAt(s, lit, digitsOnly, q).Some? && forall j :: 0 <= j < q ==> AttrAt(s, lit, digitsOnly, j).None?
  }

  /**
   * `(s.match(pattern) ?? [])[1]` for the pattern `lit` + `(class+)` + `"`,
   * where `lit` is the attribute name with `="`: the capture of the leftmost
   * match, if any.
   */
  function MatchAttr(s: string, lit: string, digitsOnly: bool): (r: Option<string>)
    ensures r.Some? <==> exists q :: 0 <= q <= |s| && AttrAt(s, lit, digitsOnly, q).Some?
    ensures r.Some? ==> exists q :: LeftmostAttr(s, lit, digitsOnly, q) && AttrAt(s, lit, digitsOnly, q) == r
    ensures r.Some? ==> r.value != "" && forall j :: 0 <= j < |r.value| ==> ValueChar(r.value[j], digitsOnly)
  {
    match FirstAttrAt(s, lit, digitsOnly, 0)
    case None => None
    case Some(q) => AttrAt(s, lit, digitsOnly, q)
  }

  /**
   * The converse of `AttrAt`'s contract: `lit`, a non-empty run of value
   * characters and '"' at `q` are a match with that run as its capture. The
   * run is maximal, '"' not being a value character.
   */
  lemma AttrFoundAt(s: string, lit: string, v: string, q: nat, digitsOnly: bool)
    requires q <= |s| && StartsWith(s[q..], lit + v + "\"")
    requires v != "" && forall j :: 0 <= j < |v| ==> ValueChar(v[j], digitsOnly)
    ensures AttrAt(s, lit, digitsOnly, q) == Some(v)
  {
    var start := q + |lit|;
    AttrPieces(s, lit, v, q);
    assert StartsWith(s[q..], lit) by {
      assert s[q..][..|lit|] == s[q..start];
    }
    forall j | start <= j < start + |v|
      ensures ValueChar(s[j], digitsOnly)
    {
      assert s[j] == s[start..start + |v|][j - start];
    }
    RunLengthStops(s, start, |v|, digitsOnly);
  }

  /** The pieces of `lit` + `v` + '"' written at `q`. */
  lemma AttrPieces(s: string, lit: string, v: string, q: nat)
    requires q <= |s| && StartsWith(s[q..], lit + v + "\"")
    ensures q + |lit| + |v| < |s| && s[q + |lit| + |v|] == '"'
    ensures s[q..q + |lit|] == lit && s[q + |lit|..q + |lit| + |v|] == v
  {
    var w := lit + v + "\"";
    assert s[q..q + |w|] == w by {
      assert s[q..][..|w|] == s[q..q + |w|];
    }
    assert s[q + |lit| + |v|] == w[|lit| + |v|];
    assert s[q..q + |lit|] == w[..|lit|];
    assert s[q + |lit|..q + |lit| + |v|] == w[|lit|..|lit| + |v|];
  }

  /** A quote-free, non-empty `v` written as `lit` + `v` + '"' after a text with no earlier `lit` is the capture. */
  lemma QuotedAfter(pre: string, lit: string, v: string, rest: string)
    requires v != "" && '"' !in v
    requires NoEarlierLit(pre, lit)
    ensures MatchAttr(pre + lit + v + "\"" + rest, lit, false) == Some(v)
  {
    assert forall j :: 0 <= j < |v| ==> ValueChar(v[j], false);
    AttrAfter(pre, lit, v, rest, false);
  }

  /** The leftmost match from `q` on is at `k` when `k` matches and nothing before it does. */
  lemma {:induction false} FirstAttrAtIs(s: string, lit: string, digitsOnly: bool, q: nat, k: nat)
    requires q <= k <= |s| && AttrAt(s, lit, digitsOnly, k).Some?
    requires forall j :: q <= j < k ==> AttrAt(s, lit, digitsOnly, j).None?
    ensures FirstAttrAt(s, lit, digitsOnly, q) == Some(k)
    decreases k - q
  {
    if q < k {
      FirstAttrAtIs(s, lit, digitsOnly, q + 1, k);
    }
  }

  /** No occurrence of `lit` starts inside `p` when `lit` follows it. */
  predicate NoEarlierLit(p: string, lit: string) {
    forall j :: 0 <= j < |p| ==> !StartsWith((p + lit)[j..], lit)
  }

  /**
   * An attribute written after a text `pre` in which no occurrence of `lit`
   * starts is the leftmost match, and its value is the capture.
   */
  lemma AttrAfter(pre: string, lit: string, v: string, rest: string, digitsOnly: bool)
    requires v != "" && forall j :: 0 <= j < |v| ==> ValueChar(v[j], digitsOnly)
    requires NoEarlierLit(pre, lit)
    ensures MatchAttr(pre + lit + v + "\"" + rest, lit, digitsOnly) == Some(v)
  {
    var s := pre + lit + v + "\"" + rest;
    var q := |pre|;
    assert s[q..] == lit + v + "\"" + rest;
    assert StartsWith(s[q..], lit + v + "\"") by {
      assert (lit + v + "\"" + rest)[..|lit + v + "\""|] == lit + v + "\"";
    }
    AttrFoundAt(s, lit, v, q, digitsOnly);
    assert s[..q + |lit|] == pre + lit;
    forall j | 0 <= j < q
      ensures AttrAt(s, lit, digitsOnly, j).None?
    {
      assert !StartsWith((pre + lit)[j..], lit);
      assert s[j..][..|lit|] == (pre + lit)[j..][..|lit|] == s[j..j + |lit|];
    }
    FirstAttrAtIs(s, lit, digitsOnly, 0, q);
  }

  /**
   * A quote-free `p` hides no occurrence of a `lit` whose only '"' is its
   * last character: that '"' would fall inside `p` or before the end of `lit`.
   */
  lemma QuoteFreeNoEarlier(p: string, lit: string)
    requires '"' !in p
    requires lit != [] && lit[|lit| - 1] == '"' && '"' !in lit[..|lit| - 1]
    ensures NoEarlierLit(p, lit)
  {
    forall j | 0 <= j < |p|
      ensures !StartsWith((p + lit)[j..], lit)
    {
      var i := j + |lit| - 1;
      assert (p + lit)[i] != '"' by {
        if i < |p| {
          assert (p + lit)[i] == p[i];
        } else {
          assert (p + lit)[i] == lit[..|lit| - 1][i - |p|];
        }
      }
      assert (p + lit)[j..][|lit| - 1] == (p + lit)[i];
    }
  }

  lemma RunLengthStops(s: string, from: nat, n: nat, digitsOnly: bool)
    requires from + n < |s| && !ValueChar(s[from + n], digitsOnly)
    requires forall j :: from <= j < from + n ==> ValueChar(s[j], digitsOnly)
    ensures RunLength(s, from, digitsOnly) == n
    decreases n
  {
    if n > 0 {
      RunLengthStops(s, from + 1, n - 1, digitsOnly);
    }
  }

  // ---------------------------------------------------------------------
  // line.replace(/^\s*-\s*/, "") and line.replace(/^\s*placeholder:\s*/, "")
  // ---------------------------------------------------------------------

  /**
   * `l.replace` of the pattern `^\s*<lit>\s*` with "": `\s*` runs over all the leading
   * whitespace (giving any back would leave a space where `lit` must start,
   * and `lit` starts with no space), so the pattern matches exactly when the
   * line without its leading whitespace starts with `lit`.
   */
  function StripLead(l: string, lit: string): (r: string)
    requires lit != [] && !IsSpace(lit[0])
    ensures StartsWith(TrimStart(l), lit) ==> r == TrimStart(TrimStart(l)[|lit|..])
    ensures !StartsWith(TrimStart(l), lit) ==> r == l
  {
    var a := TrimStart(l);
    if StartsWith(a, lit) then TrimStart(a[|lit|..]) else l
  }

  // The text of an option line: `l.replace(/^\s*-\s*/, "").trim()`.
  function OptionText(l: string): string {
    Trim(StripLead(l, "-"))
  }

  // The text of a placeholder line: `l.replace(/^\s*placeholder:\s*/, "").trim()`.
  function PlaceholderText(l: string): string {
    Trim(StripLead(l, "placeholder:"))
  }

  /** An option line "  - Yes " reads as "Yes": the marker and the whitespace around it go. */
  lemma OptionTextOfMarked(lead: string, sp: string, text: string)
    requires AllSpace(lead) && AllSpace(sp)
    requires text != [] ==> !IsSpace(text[0])
    ensures OptionText(lead + "-" + sp + text) == Trim(text)
  {
    var tail := sp + text;
    var marked := "-" + tail;
    assert lead + "-" + sp + text == lead + marked;
    StartSpaces(lead, marked);
    assert StartsWith(marked, "-");
    assert marked[1..] == tail;
    StartSpaces(sp, text);
    assert StripLead(lead + marked, "-") == text;
  }

  /** Leading whitespace is what trimStart removes. */
  lemma {:induction false} StartSpaces(sp: string, rest: string)
    requires AllSpace(sp)
    requires rest != [] ==> !IsSpace(rest[0])
    ensures TrimStart(sp + rest) == rest
  {
    if sp != [] {
      assert (sp + rest)[1..] == sp[1..] + rest;
      StartSpaces(sp[1..], rest);
    } else {
      assert sp + rest == rest;
    }
  }
}
