/**
 * The block locator: `/\/\/\s<js2fr version="(\d)\.(\d)\.(\d)">\n(.*)\n\/\/\s<\/js2fr>/gm.exec(content)`
 * on a fresh expression (src/index.ts lines 70-71), written as a scanner for this one pattern.
 *
 * The pattern is first stated declaratively: a `Hit` records the characters the pattern leaves
 * free (the two `\s`, the three `\d` and the body `(.*)`), `Text` spells the substring such a hit
 * matches, and `WellFormed` says which choices the pattern admits. The scanner `MatchAt` is proved
 * sound and complete against that statement, and `Locate` to find the earliest position.
 */
module Locator {
  import opened Wrappers
  import opened JsText
  import opened Formatter
  import opened Policy

  datatype Hit = Hit(openSpace: char, major: char, minor: char, patch: char, body: string, closeSpace: char)

  /** A located block: where the match starts and what it captured. */
  datatype Located = Located(start: nat, hit: Hit)

  /** `js2frInfo.slice(1, 4)` joined with dots. */
  function Version(h: Hit): string {
    OldVersion(h.major, h.minor, h.patch)
  }

  /** The substring matched for hit `h` (`js2frInfo[0]`). */
  function Text(h: Hit): string {
    "//" + [h.openSpace] + OpenTag + Version(h) + "\">\n" + h.body + "\n//" + [h.closeSpace] + CloseTag
  }

  /** The choices the pattern admits: `\s`, `\d` and a body of characters other than line terminators. */
  predicate WellFormed(h: Hit) {
    IsJsSpace(h.openSpace) && IsDigit(h.major) && IsDigit(h.minor) && IsDigit(h.patch)
    && NoLineTerminator(h.body) && IsJsSpace(h.closeSpace)
  }

  /** The pattern matches at position `j` of `s`, capturing `h`. */
  predicate MatchesAt(s: string, j: nat, h: Hit) {
    j <= |s| && WellFormed(h) && Text(h) <= s[j..]
  }

  function End(l: Located): nat {
    l.start + |Text(l.hit)|
  }

  /** A version string the open marker can carry: three single digits separated by dots. */
  predicate IsSingleDigitVersion(v: string) {
    |v| == 5 && IsDigit(v[0]) && v[1] == '.' && IsDigit(v[2]) && v[3] == '.' && IsDigit(v[4])
  }

  lemma TextLayout(h: Hit)
    ensures |Text(h)| == 39 + |h.body|
    ensures Text(h)[..2] == "//" && Text(h)[2] == h.openSpace && Text(h)[3..19] == OpenTag
    ensures Text(h)[19] == h.major && Text(h)[20] == '.' && Text(h)[21] == h.minor
    ensures Text(h)[22] == '.' && Text(h)[23] == h.patch && Text(h)[24..27] == "\">\n"
    ensures Text(h)[27..27 + |h.body|] == h.body
    ensures Text(h)[27 + |h.body|..30 + |h.body|] == "\n//" && Text(h)[30 + |h.body|] == h.closeSpace
    ensures Text(h)[31 + |h.body|..] == CloseTag
  {
    var w := Text(h);
    var a := "//" + [h.openSpace] + OpenTag + Version(h) + "\">\n";
    var c := "\n//" + [h.closeSpace] + CloseTag;
    assert w == a + h.body + c;
    assert |a| == 27;
    assert a[..2] == "//" && a[3..19] == OpenTag && a[24..27] == "\">\n";
    assert w[..27] == a;
    assert w[27..27 + |h.body|] == h.body;
    assert w[27 + |h.body|..] == c;
  }

  /** The length of the longest run of characters other than line terminators: what `(.*)` takes. */
  function LineLength(t: string): (n: nat)
    ensures n <= |t|
    ensures forall k :: 0 <= k < n ==> !IsLineTerminator(t[k])
    ensures n < |t| ==> IsLineTerminator(t[n])
  {
    if |t| == 0 || IsLineTerminator(t[0]) then 0 else 1 + LineLength(t[1..])
  }

  /** The pattern anchored at the start of `t`. */
  function MatchAt(t: string): (m: Option<Hit>)
    ensures m.Some? ==> WellFormed(m.value) && Text(m.value) <= t
  {
    if |t| >= 27 && t[..2] == "//" && IsJsSpace(t[2]) && t[3..19] == OpenTag
       && IsDigit(t[19]) && t[20] == '.' && IsDigit(t[21]) && t[22] == '.' && IsDigit(t[23])
       && t[24..27] == "\">\n"
    then
      var n := LineLength(t[27..]);
      var tail := t[27 + n..];
      if |tail| >= 12 && tail[..3] == "\n//" && IsJsSpace(tail[3]) && tail[4..12] == CloseTag then
        var h := Hit(t[2], t[19], t[21], t[23], t[27..27 + n], tail[3]);
        MatchAtSound(t, n, h);
        Some(h)
      else None
    else None
  }

  lemma MatchAtSound(t: string, n: nat, h: Hit)
    requires 27 + n + 12 <= |t| && t[..2] == "//" && t[3..19] == OpenTag && t[24..27] == "\">\n"
    requires t[20] == '.' && t[22] == '.'
    requires t[27 + n..27 + n + 3] == "\n//" && t[27 + n + 4..27 + n + 12] == CloseTag
    requires h == Hit(t[2], t[19], t[21], t[23], t[27..27 + n], t[27 + n + 3])
    ensures Text(h) <= t
  {
    TextLayout(h);
    var w := Text(h);
    forall k | 0 <= k < |w| ensures w[k] == t[k] {
      if k < 2 {
        assert w[k] == w[..2][k] && t[k] == t[..2][k];
      } else if 3 <= k < 19 {
        assert w[k] == w[3..19][k - 3] && t[k] == t[3..19][k - 3];
      } else if 24 <= k < 27 {
        assert w[k] == w[24..27][k - 24] && t[k] == t[24..27][k - 24];
      } else if 27 <= k < 27 + n {
        assert w[k] == w[27..27 + n][k - 27] && t[k] == t[27..27 + n][k - 27];
      } else if 27 + n <= k < 30 + n {
        assert w[k] == w[27 + n..30 + n][k - 27 - n] && t[k] == t[27 + n..27 + n + 3][k - 27 - n];
      } else if 31 + n <= k {
        assert w[k] == w[31 + n..][k - 31 - n] && t[k] == t[27 + n + 4..27 + n + 12][k - 31 - n];
      }
    }
  }

  /** A slice inside a prefix is the same slice of the whole. */
  lemma PrefixSlice(w: string, t: string, i: nat, j: nat)
    requires w <= t && i <= j <= |w|
    ensures t[i..j] == w[i..j]
  {
    assert t[i..j] == t[..|w|][i..j];
  }

  /** `(.*)` stops exactly at the first line terminator. */
  lemma LineLengthAt(t: string, n: nat)
    requires n < |t| && IsLineTerminator(t[n]) && NoLineTerminator(t[..n])
    ensures LineLength(t) == n
  {
    forall k | 0 <= k < n ensures !IsLineTerminator(t[k]) {
      assert t[..n][k] == t[k];
    }
  }

  /** Every way the pattern can match at the start of `t` is the one `MatchAt` finds. */
  lemma MatchAtComplete(t: string, h: Hit)
    requires WellFormed(h) && Text(h) <= t
    ensures MatchAt(t) == Some(h)
  {
    TextLayout(h);
    var w := Text(h);
    var b := |h.body|;
    PrefixSlice(w, t, 0, 2);
    PrefixSlice(w, t, 3, 19);
    PrefixSlice(w, t, 24, 27);
    PrefixSlice(w, t, 27, 27 + b);
    PrefixSlice(w, t, 27 + b, 30 + b);
    PrefixSlice(w, t, 31 + b, |w|);
    assert t[27..][..b] == h.body;
    assert t[27..][b] == t[27 + b..30 + b][0];
    LineLengthAt(t[27..], b);
    var tail := t[27 + b..];
    assert tail[..3] == t[27 + b..30 + b];
    assert tail[4..12] == t[31 + b..|w|];
  }

  lemma MatchUnique(s: string, j: nat, h1: Hit, h2: Hit)
    requires MatchesAt(s, j, h1) && MatchesAt(s, j, h2)
    ensures h1 == h2
  {
    MatchAtComplete(s[j..], h1);
    MatchAtComplete(s[j..], h2);
  }

  lemma NoMatchHere(s: string, i: nat)
    requires i <= |s| && MatchAt(s[i..]).None?
    ensures forall h :: !MatchesAt(s, i, h)
  {
    forall h | MatchesAt(s, i, h) ensures false {
      MatchAtComplete(s[i..], h);
    }
  }

  /** The scan of `exec` from position `i` on. */
  function LocateFrom(s: string, i: nat): Option<Located>
    requires i <= |s|
    decreases |s| - i
  {
    match MatchAt(s[i..])
    case Some(h) => Some(Located(i, h))
    case None => if i == |s| then None else LocateFrom(s, i + 1)
  }

  /** No match starts at any position in `[lo, hi)`. */
  ghost predicate NoMatchIn(s: string, lo: nat, hi: nat) {
    forall j, h :: lo <= j < hi ==> !MatchesAt(s, j, h)
  }

  /** The scan stops at the first position from `i` on where the pattern matches. */
  lemma {:induction false} LocateFromEarliest(s: string, i: nat)
    requires i <= |s|
    decreases |s| - i
    ensures LocateFrom(s, i).Some? ==>
              var l := LocateFrom(s, i).value;
              i <= l.start && MatchesAt(s, l.start, l.hit) && NoMatchIn(s, i, l.start)
    ensures LocateFrom(s, i).None? ==> NoMatchIn(s, i, |s| + 1)
  {
    match MatchAt(s[i..])
    case Some(h) =>
    case None =>
      NoMatchHere(s, i);
      if i < |s| {
        LocateFromEarliest(s, i + 1);
        var r := LocateFrom(s, i + 1);
        assert LocateFrom(s, i) == r;
        var hi := if r.Some? then r.value.start else |s| + 1;
        assert NoMatchIn(s, i + 1, hi);
        forall j, h | i <= j < hi ensures !MatchesAt(s, j, h) {
          if j > i {
            assert i + 1 <= j < hi;
          }
        }
      }
  }

  /**
   * `exec` on a fresh global expression: the earliest position where the pattern matches, or
   * `None` (JavaScript's `null`) when it matches nowhere.
   */
  function Locate(s: string): (r: Option<Located>)
    ensures r.Some? ==> MatchesAt(s, r.value.start, r.value.hit) && End(r.value) <= |s|
    ensures r.Some? ==> s[r.value.start..End(r.value)] == Text(r.value.hit)
    ensures r.Some? ==> NoMatchIn(s, 0, r.value.start)
    ensures r.None? ==> NoMatchIn(s, 0, |s| + 1)
  {
    LocateFromEarliest(s, 0);
    var r := LocateFrom(s, 0);
    if r.Some? then
      var w := Text(r.value.hit);
      assert s[r.value.start..][..|w|] == w;
      r
    else r
  }

  /** Any match at the first position found is the earliest match. */
  lemma LocateAt(s: string, j: nat, h: Hit)
    requires MatchesAt(s, j, h)
    requires NoMatchIn(s, 0, j)
    ensures Locate(s) == Some(Located(j, h))
  {
    var l := Locate(s).value;
    assert l.start >= j;
    MatchUnique(s, j, l.hit, h);
  }

  lemma MatchHasAngle(s: string, j: nat, h: Hit)
    requires MatchesAt(s, j, h)
    ensures j + 3 < |s| && s[j + 3] == '<'
  {
    TextLayout(h);
    assert s[j + 3] == Text(h)[3] == OpenTag[0];
  }

  /** Content without a `<` holds no block and is appended to. */
  lemma NoAngleNoMatch(s: string)
    requires '<' !in s
    ensures Locate(s).None?
  {
    if Locate(s).Some? {
      var l := Locate(s).value;
      MatchHasAngle(s, l.start, l.hit);
    }
  }

  /** A hit with single spaces spells exactly the block the formatter writes. */
  lemma CanonicalText(h: Hit)
    requires h.openSpace == ' ' && h.closeSpace == ' '
    ensures Text(h) == Format(Version(h), h.body)
  {
    assert "//" + [h.openSpace] == "// ";
    assert "\n//" + [h.closeSpace] + CloseTag == "\n" + CloseMarker;
    calc {
      Text(h);
      "// " + OpenTag + Version(h) + "\">\n" + h.body + ("\n//" + [h.closeSpace] + CloseTag);
      "// " + OpenTag + Version(h) + "\">" + "\n" + h.body + "\n" + CloseMarker;
    }
  }

  /** The canonical hit of a block as the formatter writes it. */
  function FormattedHit(v: string, rules: string): Hit
    requires |v| == 5
  {
    Hit(' ', v[0], v[2], v[4], rules, ' ')
  }

  /**
   * Round trip: a block formatted with a single-digit version and single-line rules text is
   * found at its start, the whole block is the match, and the captures give back the three
   * digits and the rules text.
   */
  lemma FormatLocateRoundTrip(v: string, rules: string)
    requires IsSingleDigitVersion(v) && NoLineTerminator(rules)
    ensures Locate(Format(v, rules)) == Some(Located(0, FormattedHit(v, rules)))
    ensures Text(FormattedHit(v, rules)) == Format(v, rules)
    ensures Version(FormattedHit(v, rules)) == v && FormattedHit(v, rules).body == rules
  {
    var h := FormattedHit(v, rules);
    assert Version(h) == v;
    CanonicalText(h);
    assert MatchesAt(Format(v, rules), 0, h);
    LocateAt(Format(v, rules), 0, h);
  }

  /** The first of several blocks is the one located. */
  lemma FirstBlockLocated(v: string, rules: string, rest: string)
    requires IsSingleDigitVersion(v) && NoLineTerminator(rules)
    ensures Locate(Format(v, rules) + rest) == Some(Located(0, FormattedHit(v, rules)))
  {
    var h := FormattedHit(v, rules);
    FormatLocateRoundTrip(v, rules);
    var s := Format(v, rules) + rest;
    assert s[0..][..|Text(h)|] == Text(h);
    assert MatchesAt(s, 0, h);
    LocateAt(s, 0, h);
  }

  lemma MarkerAngles()
    ensures forall k :: 0 <= k < 19 && k != 3 ==> ("// " + OpenTag)[k] != '<'
    ensures forall k :: 0 <= k < 11 && k != 3 ==> CloseMarker[k] != '<'
  {
    var open := "// " + OpenTag;
    assert open == "// " + "<" + "js2fr version=\"";
    forall k | 0 <= k < 19 && k != 3 ensures open[k] != '<' {
      if k < 3 {
        assert open[k] == "// "[k];
      } else {
        assert open[k] == "js2fr version=\""[k - 4];
      }
    }
    assert CloseMarker == "// " + "<" + "/js2fr>";
    forall k | 0 <= k < 11 && k != 3 ensures CloseMarker[k] != '<' {
      if k < 3 {
        assert CloseMarker[k] == "// "[k];
      } else {
        assert CloseMarker[k] == "/js2fr>"[k - 4];
      }
    }
  }

  /** With a `<`-free version, every `<` of a block lies in one of its markers or in its rules text. */
  lemma FormatAngles(v: string, rules: string)
    requires '<' !in v
    ensures var s := Format(v, rules);
            forall k :: 0 <= k < |s| && s[k] == '<' ==>
                          k == 3 || k == |s| - 8 || 22 + |v| <= k < 22 + |v| + |rules|
  {
    var s := Format(v, rules);
    var n := |s|;
    FormatLayout(v, rules);
    MarkerAngles();
    forall k | 0 <= k < n && k != 3 && k != n - 8 && !(22 + |v| <= k < 22 + |v| + |rules|)
      ensures s[k] != '<'
    {
      if k < 19 {
        assert s[k] == s[..19][k];
      } else if k < 19 + |v| {
        assert s[k] == s[19..19 + |v|][k - 19];
      } else if k < 22 + |v| {
        assert s[k] == s[19 + |v|..22 + |v|][k - 19 - |v|];
      } else if k > n - 12 {
        assert s[k] == s[n - 11..][k - n + 11];
      }
    }
  }

  /** A tag without line feeds that starts inside the rules text of a block lies wholly inside it. */
  lemma TagInRules(s: string, rules: string, off: nat, tag: string, p: nat)
    requires off + |rules| < |s| && s[off..off + |rules|] == rules && s[off + |rules|] == '\n'
    requires '\n' !in tag && off <= p < off + |rules| && OccursAt(s, tag, p)
    ensures OccursAt(rules, tag, p - off)
  {
    var e := off + |rules|;
    forall k | p <= k < p + |tag| ensures s[k] != '\n' {
      assert s[k] == s[p..p + |tag|][k - p] == tag[k - p];
      assert tag[k - p] in tag;
    }
    assert p + |tag| <= e;
    forall i | 0 <= i < |tag| ensures rules[p - off + i] == tag[i] {
      assert rules[p - off + i] == s[off..e][p - off + i] == s[p + i];
      assert s[p + i] == s[p..p + |tag|][i];
    }
    assert rules[p - off..p - off + |tag|] == tag;
  }

  /**
   * In a block whose version has no `<` and whose rules text contains neither tag, the open tag
   * occurs only in the open marker and the close tag only in the close marker.
   */
  lemma FormatTagPositions(v: string, rules: string)
    requires '<' !in v && !Contains(rules, OpenTag) && !Contains(rules, CloseTag)
    ensures var s := Format(v, rules);
            (forall p: nat :: OccursAt(s, OpenTag, p) ==> p == 3)
            && (forall p: nat :: OccursAt(s, CloseTag, p) ==> p == |s| - 8)
  {
    var s := Format(v, rules);
    var off := 22 + |v|;
    FormatLayout(v, rules);
    FormatAngles(v, rules);
    assert s[off + |rules|] == '\n';
    assert s[4] == 'j' by {
      assert s[4] == s[..19][4];
    }
    forall p: nat | OccursAt(s, OpenTag, p) ensures p == 3 {
      assert s[p] == s[p..p + |OpenTag|][0];
      if off <= p < off + |rules| {
        TagInRules(s, rules, off, OpenTag, p);
      }
    }
    forall p: nat | OccursAt(s, CloseTag, p) ensures p == |s| - 8 {
      assert s[p] == s[p..p + |CloseTag|][0];
      assert p != 3 by {
        assert s[p + 1] == s[p..p + |CloseTag|][1];
      }
      if off <= p < off + |rules| {
        TagInRules(s, rules, off, CloseTag, p);
      }
    }
  }

  lemma VersionHasNoQuote(h: Hit)
    requires WellFormed(h)
    ensures forall k :: 19 <= k < 24 ==> Text(h)[k] != '"'
  {
    TextLayout(h);
  }

  lemma BodyHasNoLineTerminator(h: Hit)
    requires WellFormed(h)
    ensures forall k :: 27 <= k < 27 + |h.body| ==> !IsLineTerminator(Text(h)[k])
  {
    TextLayout(h);
    forall k | 27 <= k < 27 + |h.body| ensures !IsLineTerminator(Text(h)[k]) {
      assert Text(h)[k] == Text(h)[27..27 + |h.body|][k - 27];
    }
  }

  /** A match inside a block whose rules text contains neither tag is the whole block. */
  lemma FormatMatchWhole(v: string, rules: string, j: nat, h: Hit)
    requires '<' !in v && !Contains(rules, OpenTag) && !Contains(rules, CloseTag)
    requires MatchesAt(Format(v, rules), j, h)
    ensures j == 0 && Text(h) == Format(v, rules)
  {
    var s := Format(v, rules);
    var w := Text(h);
    var b := |h.body|;
    TextLayout(h);
    FormatTagPositions(v, rules);
    assert OccursAt(s, OpenTag, j + 3) by {
      PrefixSlice(w, s[j..], 3, 19);
      assert s[j + 3..j + 19] == s[j..][3..19];
    }
    assert OccursAt(s, CloseTag, j + 31 + b) by {
      PrefixSlice(w, s[j..], 31 + b, |w|);
      assert s[j + 31 + b..j + |w|] == s[j..][31 + b..|w|];
    }
    assert |w| == |s|;
    assert s[..|w|] == w;
  }

  /** A formatted block that is matched as a whole has a single-digit version and one line of rules. */
  lemma WholeBlockMatchSingleLine(v: string, rules: string, h: Hit)
    requires WellFormed(h) && Text(h) == Format(v, rules)
    ensures IsSingleDigitVersion(v) && NoLineTerminator(rules)
  {
    var s := Format(v, rules);
    var w := Text(h);
    TextLayout(h);
    FormatLayout(v, rules);
    assert s[19 + |v|] == s[19 + |v|..22 + |v|][0] && s[21 + |v|] == s[19 + |v|..22 + |v|][2];
    VersionHasNoQuote(h);
    BodyHasNoLineTerminator(h);
    assert |v| >= 5;
    assert |v| <= 5;
    assert v == Version(h) by {
      assert v == s[19..24];
      assert w[19..24] == Version(h);
    }
    assert rules == h.body by {
      assert rules == s[27..27 + |rules|];
    }
  }

  /**
   * For a version without `<` and rules text that contains neither tag, the formatted block is
   * found exactly when the version is three single digits and the rules text is a single line.
   * A version such as `1.10.0`, or rules text spanning several lines, is not recognised.
   */
  lemma LocateFormatIff(v: string, rules: string)
    requires '<' !in v && !Contains(rules, OpenTag) && !Contains(rules, CloseTag)
    ensures Locate(Format(v, rules)).Some? <==> IsSingleDigitVersion(v) && NoLineTerminator(rules)
  {
    if IsSingleDigitVersion(v) && NoLineTerminator(rules) {
      FormatLocateRoundTrip(v, rules);
    } else if Locate(Format(v, rules)).Some? {
      var l := Locate(Format(v, rules)).value;
      FormatMatchWhole(v, rules, l.start, l.hit);
      WholeBlockMatchSingleLine(v, rules, l.hit);
    }
  }

  lemma OccurrenceIsMatch(s: string, j: nat, h: Hit)
    requires WellFormed(h) && OccursAt(s, Text(h), j)
    ensures MatchesAt(s, j, h)
  {
    assert s[j..][..|Text(h)|] == s[j..j + |Text(h)|];
  }

  /**
   * The text of the located match occurs nowhere earlier in the content, so searching for it as
   * a string (as `replace` with a string pattern does) finds the match itself.
   */
  lemma MatchedTextFirstOccurrence(s: string, l: Located)
    requires Locate(s) == Some(l)
    ensures IndexOf(s, Text(l.hit)) == Some(l.start)
  {
    var p := Text(l.hit);
    forall j | 0 <= j < l.start ensures !OccursAt(s, p, j) {
      if OccursAt(s, p, j) {
        OccurrenceIsMatch(s, j, l.hit);
      }
    }
    IndexOfFirst(s, p, l.start);
  }
}
