/**
 * The JavaScript string built-ins that the block injection relies on, modelled on `seq<char>`:
 * the character classes of regular expressions, `Array.prototype.join`, `String.prototype.indexOf`,
 * `String.prototype.replace` with a string pattern (including its `$` escapes),
 * `String.prototype.split(".")[0]` and `parseInt(_, 10)`.
 */
module JsText {
  import opened Wrappers

  /** The class `\s` of JavaScript regular expressions: WhiteSpace and LineTerminator code points. */
  predicate IsJsSpace(c: char) {
    c == '\t' || c == '\n' || c == '\U{000B}' || c == '\U{000C}' || c == '\r' || c == ' '
    || c == '\U{00A0}' || c == '\U{1680}' || ('\U{2000}' <= c <= '\U{200A}')
    || c == '\U{2028}' || c == '\U{2029}' || c == '\U{202F}' || c == '\U{205F}'
    || c == '\U{3000}' || c == '\U{FEFF}'
  }

  /** The characters that `.` does not match (without the `s` flag). */
  predicate IsLineTerminator(c: char) {
    c == '\n' || c == '\r' || c == '\U{2028}' || c == '\U{2029}'
  }

  predicate NoLineTerminator(s: string) {
    forall k :: 0 <= k < |s| ==> !IsLineTerminator(s[k])
  }

  /** The class `\d`: ASCII digits only. */
  predicate IsDigit(c: char) {
    '0' <= c <= '9'
  }

  predicate AllDigits(s: string) {
    forall k :: 0 <= k < |s| ==> IsDigit(s[k])
  }

  function DigitValue(c: char): (n: nat)
    requires IsDigit(c)
    ensures n < 10
  {
    c as int - '0' as int
  }

  /** `parts.join(sep)` */
  function Join(parts: seq<string>, sep: string): (r: string)
    ensures |parts| == 0 ==> r == ""
    ensures |parts| == 1 ==> r == parts[0]
    // an unfolding aid for callers; `JoinAccumulates` states the accumulation
    ensures |parts| > 1 ==> r == parts[0] + sep + Join(parts[1..], sep)
  {
    if |parts| == 0 then ""
    else if |parts| == 1 then parts[0]
    else parts[0] + sep + Join(parts[1..], sep)
  }

  /**
   * The accumulation of the ECMAScript definition of `join`: the result so far, the separator and
   * then the next part, from left to right.
   */
  lemma {:induction false} JoinAccumulates(parts: seq<string>, sep: string)
    requires |parts| > 1
    ensures Join(parts, sep) == Join(parts[..|parts| - 1], sep) + sep + parts[|parts| - 1]
    decreases |parts|
  {
    var n := |parts|;
    var init := parts[..n - 1];
    if n > 2 {
      var tail := parts[1..];
      JoinAccumulates(tail, sep);
      assert tail[..|tail| - 1] == init[1..];
      assert tail[|tail| - 1] == parts[n - 1];
      assert init[0] == parts[0];
      calc {
        Join(parts, sep);
        parts[0] + sep + Join(tail, sep);
        parts[0] + sep + (Join(init[1..], sep) + sep + parts[n - 1]);
        (parts[0] + sep + Join(init[1..], sep)) + sep + parts[n - 1];
        Join(init, sep) + sep + parts[n - 1];
      }
    } else {
      assert parts[1..] == [parts[1]];
      assert init == [parts[0]];
    }
  }

  lemma SpliceBack(s: string, i: nat, j: nat)
    requires i <= j <= |s|
    ensures s[..i] + s[i..j] + s[j..] == s
  {
  }

  // ---------------------------------------------------------------- indexOf

  predicate OccursAt(s: string, p: string, j: nat) {
    j + |p| <= |s| && s[j..j + |p|] == p
  }

  /** `s.indexOf(p, k)`: the first position at or after `k` where `p` occurs. */
  function IndexOfFrom(s: string, p: string, k: nat): (r: Option<nat>)
    requires k <= |s|
    decreases |s| - k
    ensures r.Some? ==> k <= r.value && OccursAt(s, p, r.value)
    ensures r.Some? ==> forall j :: k <= j < r.value ==> !OccursAt(s, p, j)
    ensures r.None? ==> forall j :: k <= j <= |s| ==> !OccursAt(s, p, j)
  {
    if OccursAt(s, p, k) then Some(k)
    else if k == |s| then None
    else IndexOfFrom(s, p, k + 1)
  }

  function IndexOf(s: string, p: string): Option<nat> {
    IndexOfFrom(s, p, 0)
  }

  /** `p` occurs somewhere in `s`. */
  predicate Contains(s: string, p: string) {
    exists j: nat :: j <= |s| && OccursAt(s, p, j)
  }

  /** The earliest occurrence is the one `indexOf` reports. */
  lemma IndexOfFirst(s: string, p: string, i: nat)
    requires OccursAt(s, p, i)
    requires forall j :: 0 <= j < i ==> !OccursAt(s, p, j)
    ensures IndexOf(s, p) == Some(i)
  {
  }

  // ---------------------------------------------------------------- replace

  /** The characters that, after a `$`, form a substitution in a replacement template. */
  predicate IsDollarEscape(c: char) {
    c == '$' || c == '&' || c == '`' || c == '\''
  }

  /** The template contains no `$$`, `$&`, `` $` `` or `$'`. */
  predicate NoDollarEscape(s: string) {
    forall k :: 0 <= k < |s| - 1 && s[k] == '$' ==> !IsDollarEscape(s[k + 1])
  }

  /**
   * GetSubstitution for a string search pattern, which has no capture groups: `$$` becomes `$`,
   * `$&` the matched text, `` $` `` the text before the match, `$'` the text after it; every other
   * character, including a `$` followed by a digit or by `<`, is copied as it is.
   */
  function Substitute(template: string, matched: string, before: string, after: string): string
    decreases |template|
  {
    if |template| == 0 then ""
    else if template[0] == '$' && |template| >= 2 && IsDollarEscape(template[1]) then
      Expansion(template[1], matched, before, after) + Substitute(template[2..], matched, before, after)
    else
      [template[0]] + Substitute(template[1..], matched, before, after)
  }

  /** What `$` followed by the pattern character `c` expands to. */
  function Expansion(c: char, matched: string, before: string, after: string): string {
    if c == '$' then "$"
    else if c == '&' then matched
    else if c == '`' then before
    else after
  }

  /**
   * A template with exactly one pattern, between two pattern-free parts, is those parts around
   * the pattern's expansion.
   */
  lemma SubstituteOneEscape(head: string, c: char, tail: string, matched: string, before: string, after: string)
    requires NoDollarEscape(head) && (head == [] || head[|head| - 1] != '$')
    requires IsDollarEscape(c) && NoDollarEscape(tail)
    ensures Substitute(head + ['$', c] + tail, matched, before, after)
            == head + Expansion(c, matched, before, after) + tail
  {
    var t := ['$', c] + tail;
    assert head + ['$', c] + tail == head + t;
    SubstituteConcat(head, t, matched, before, after);
    assert t[0] == '$' && t[1] == c && t[2..] == tail;
    SubstituteLiteral(tail, matched, before, after);
  }

  /** A template without substitutions is inserted literally. */
  lemma {:induction false} SubstituteLiteral(template: string, matched: string, before: string, after: string)
    requires NoDollarEscape(template)
    ensures Substitute(template, matched, before, after) == template
    decreases |template|
  {
    if |template| > 0 {
      var rest := template[1..];
      assert NoDollarEscape(rest) by {
        forall k | 0 <= k < |rest| - 1 && rest[k] == '$'
          ensures !IsDollarEscape(rest[k + 1])
        {
          assert template[k + 1] == rest[k];
        }
      }
      SubstituteLiteral(rest, matched, before, after);
    }
  }

  /** A literal prefix that does not end in `$` is copied, and the rest is substituted on its own. */
  lemma {:induction false} SubstituteConcat(p: string, q: string, matched: string, before: string, after: string)
    requires NoDollarEscape(p) && (p == [] || p[|p| - 1] != '$')
    ensures Substitute(p + q, matched, before, after) == p + Substitute(q, matched, before, after)
    decreases |p|
  {
    if p == [] {
      assert p + q == q;
    } else {
      var rest := p[1..];
      assert (p + q)[1..] == rest + q;
      assert p[0] != '$' || !IsDollarEscape((p + q)[1]) by {
        if |p| >= 2 {
          assert (p + q)[1] == p[1];
        }
      }
      assert NoDollarEscape(rest) by {
        forall k | 0 <= k < |rest| - 1 && rest[k] == '$'
          ensures !IsDollarEscape(rest[k + 1])
        {
          assert p[k + 1] == rest[k];
        }
      }
      SubstituteConcat(rest, q, matched, before, after);
      assert p == [p[0]] + rest;
    }
  }

  lemma NoDollarEscapeConcat(a: string, b: string)
    requires NoDollarEscape(a) && NoDollarEscape(b)
    requires a == [] || b == [] || a[|a| - 1] != '$' || !IsDollarEscape(b[0])
    ensures NoDollarEscape(a + b)
  {
    var s := a + b;
    forall k | 0 <= k < |s| - 1 && s[k] == '$'
      ensures !IsDollarEscape(s[k + 1])
    {
      if k + 1 < |a| {
        assert s[k] == a[k] && s[k + 1] == a[k + 1];
      } else if k + 1 > |a| {
        assert s[k] == b[k - |a|] && s[k + 1] == b[k + 1 - |a|];
      }
    }
  }

  lemma NoDollarNoEscape(s: string)
    requires '$' !in s
    ensures NoDollarEscape(s)
  {
  }

  /**
   * `s.replace(search, template)` with a string `search`: only the first occurrence is replaced,
   * and everything before and after it is kept.
   */
  function ReplaceFirst(s: string, search: string, template: string): (r: string)
    ensures IndexOf(s, search).None? ==> r == s
    ensures IndexOf(s, search).Some? ==>
              var i := IndexOf(s, search).value;
              s[..i] <= r && |r| >= |s| - |search| && r[|r| - (|s| - i - |search|)..] == s[i + |search|..]
  {
    match IndexOf(s, search)
    case None => s
    case Some(i) =>
      var before, after := s[..i], s[i + |search|..];
      before + Substitute(template, search, before, after) + after
  }

  // ---------------------------------------------------------------- split(".")[0]

  /** `s.split(sep)[0]`: the text before the first `sep`, or all of `s`. */
  function FirstField(s: string, sep: char): (r: string)
    ensures r <= s && sep !in r
    ensures |r| < |s| ==> s[|r|] == sep
  {
    if |s| == 0 || s[0] == sep then "" else [s[0]] + FirstField(s[1..], sep)
  }

  /** The first field of `a`, the separator and more is `a` when `a` holds no separator. */
  lemma {:induction false} FirstFieldOf(a: string, sep: char, rest: string)
    requires sep !in a
    ensures FirstField(a + [sep] + rest, sep) == a
    decreases |a|
  {
    var s := a + [sep] + rest;
    if a == [] {
      assert s[0] == sep;
    } else {
      assert s[0] == a[0];
      assert s[1..] == a[1..] + [sep] + rest;
      FirstFieldOf(a[1..], sep, rest);
      assert a == [a[0]] + a[1..];
    }
  }

  // ---------------------------------------------------------------- parseInt(_, 10)

  /** The input of `parseInt` with its leading white space removed. */
  function TrimStart(s: string): (r: string)
    ensures |r| <= |s| && r == s[|s| - |r|..]
    ensures r == [] || !IsJsSpace(r[0])
    ensures forall k :: 0 <= k < |s| - |r| ==> IsJsSpace(s[k])
  {
    if |s| > 0 && IsJsSpace(s[0]) then TrimStart(s[1..]) else s
  }

  /** The length of the longest run of digits at the start of `s`. */
  function DigitRun(s: string): (n: nat)
    ensures n <= |s| && AllDigits(s[..n])
    ensures n < |s| ==> !IsDigit(s[n])
  {
    if |s| > 0 && IsDigit(s[0]) then 1 + DigitRun(s[1..]) else 0
  }

  /** The decimal value of a string of digits. */
  function DigitsValue(ds: string): nat
    requires AllDigits(ds)
  {
    if |ds| == 0 then 0 else 10 * DigitsValue(ds[..|ds| - 1]) + DigitValue(ds[|ds| - 1])
  }

  /**
   * `parseInt(s, 10)`: white space is skipped, one sign is accepted, and the longest run of
   * digits that follows is read; `None` stands for `NaN` (no digit at all).
   */
  function ParseInt(s: string): (r: Option<int>)
    // an unfolding aid; `ParseIntForm` states the value
    ensures r.None? <==> DigitRun(SignStripped(TrimStart(s))) == 0
  {
    var t := TrimStart(s);
    var unsigned := SignStripped(t);
    var n := DigitRun(unsigned);
    if n == 0 then None
    else
      Some(Signed(|t| > 0 && t[0] == '-', DigitsValue(unsigned[..n])))
  }

  /** A magnitude with a sign. */
  function Signed(negative: bool, magnitude: nat): int {
    if negative then -(magnitude as int) else magnitude
  }

  function SignStripped(t: string): string {
    if |t| > 0 && (t[0] == '-' || t[0] == '+') then t[1..] else t
  }

  /** White space in front of a text that does not start with white space is skipped entirely. */
  lemma {:induction false} TrimStartSkips(ws: string, u: string)
    requires forall k :: 0 <= k < |ws| ==> IsJsSpace(ws[k])
    requires u == [] || !IsJsSpace(u[0])
    ensures TrimStart(ws + u) == u
    decreases |ws|
  {
    if ws == [] {
      assert ws + u == u;
    } else {
      assert (ws + u)[0] == ws[0];
      assert (ws + u)[1..] == ws[1..] + u;
      TrimStartSkips(ws[1..], u);
    }
  }

  /** The digit run of digits followed by a non-digit is exactly those digits. */
  lemma {:induction false} DigitRunOf(ds: string, rest: string)
    requires AllDigits(ds)
    requires rest == [] || !IsDigit(rest[0])
    ensures DigitRun(ds + rest) == |ds|
    decreases |ds|
  {
    if ds == [] {
      assert ds + rest == rest;
    } else {
      assert (ds + rest)[0] == ds[0];
      assert (ds + rest)[1..] == ds[1..] + rest;
      DigitRunOf(ds[1..], rest);
    }
  }

  /**
   * `parseInt(ws + sign + ds + rest, 10)` for leading white space `ws`, an optional sign, the
   * digits `ds` and a `rest` that does not continue them: the signed value of the digits, or
   * `NaN` when there are none. When neither a sign nor a digit follows the white space, `rest`
   * must not start with more white space or a sign (`ws` and `sign` are then the whole of them).
   */
  lemma ParseIntForm(ws: string, sign: string, ds: string, rest: string)
    requires forall k :: 0 <= k < |ws| ==> IsJsSpace(ws[k])
    requires sign == "" || sign == "+" || sign == "-"
    requires AllDigits(ds)
    requires rest == [] || !IsDigit(rest[0])
    requires sign == "" && ds == [] && rest != [] ==> !IsJsSpace(rest[0]) && rest[0] != '+' && rest[0] != '-'
    ensures ParseInt(ws + sign + ds + rest)
            == if ds == [] then None else Some(Signed(sign == "-", DigitsValue(ds)))
  {
    var u := sign + ds + rest;
    assert ws + sign + ds + rest == ws + u;
    SignOf(sign, ds, rest);
    TrimStartSkips(ws, u);
    DigitRunOf(ds, rest);
    ParseIntUnsigned(ws + u, u, ds + rest, |ds|);
    assert (ds + rest)[..|ds|] == ds;
  }

  /** `ParseInt` unfolded once its white space, sign and digit run are known. */
  lemma ParseIntUnsigned(s: string, t: string, unsigned: string, n: nat)
    requires TrimStart(s) == t && SignStripped(t) == unsigned && DigitRun(unsigned) == n
    ensures ParseInt(s) == if n == 0 then None
                           else Some(Signed(|t| > 0 && t[0] == '-', DigitsValue(unsigned[..n])))
  {
  }

  lemma SignOf(sign: string, ds: string, rest: string)
    requires sign == "" || sign == "+" || sign == "-"
    requires AllDigits(ds)
    requires sign == "" && ds == [] && rest != [] ==> !IsJsSpace(rest[0]) && rest[0] != '+' && rest[0] != '-'
    ensures var u := sign + ds + rest;
            (u == [] || !IsJsSpace(u[0])) && SignStripped(u) == ds + rest
            && (|u| > 0 && u[0] == '-' <==> sign == "-")
  {
    var u := sign + ds + rest;
    if sign != "" {
      assert u[0] == sign[0];
      assert u[1..] == ds + rest;
    } else if ds != [] {
      assert u == ds + rest;
      assert u[0] == ds[0];
    } else {
      assert u == rest;
    }
  }

  /** A plain string of digits parses to its decimal value. */
  lemma ParseIntDigits(ds: string)
    requires |ds| > 0 && AllDigits(ds)
    ensures ParseInt(ds) == Some(DigitsValue(ds))
  {
    assert !IsJsSpace(ds[0]) by {
      assert IsDigit(ds[0]);
    }
    assert TrimStart(ds) == ds;
    assert SignStripped(ds) == ds;
    var n := DigitRun(ds);
    assert n == |ds|;
    assert ds[..n] == ds;
  }
}
