/**
 * The injection engine (src/index.ts lines 63-99): from whether an output path was given, the
 * output file's content if it exists, the compiled rules text, the tool's version and the
 * `--force` flag, it decides between creating the file, appending a block, replacing the first
 * block, refusing, and printing, and gives the content to write or print.
 */
module Injection {
  import opened Wrappers
  import opened JsText
  import opened Formatter
  import opened Locator
  import opened Policy

  datatype Outcome =
    | Create(written: string)    // no file at the output path: the block alone is written
    | Append(written: string)    // the file holds no block: the block is appended
    | Replace(written: string)   // the first block is replaced
    | Refuse                     // an incompatible block without --force: nothing is written
    | Print(printed: string)     // no output path: the block goes to standard output (`console.log` adds a line feed)

  /** The located block may not be replaced without `--force`. */
  predicate Conflicts(content: string, version: string) {
    match Locate(content)
    case None => false
    case Some(l) => !CanOverwrite(l.hit.major, l.hit.minor, l.hit.patch, version)
  }

  /**
   * One invocation. `outputGiven` is the truth of the output argument (a non-empty path);
   * `host` is the file's content, `None` when the file does not exist.
   */
  function Run(outputGiven: bool, host: Option<string>, compiled: string, version: string, force: bool): (o: Outcome)
    ensures o.Append? <==> outputGiven && host.Some? && Locate(host.value).None?
    ensures o.Append? ==> host.value <= o.written
    ensures o.Replace? ==> outputGiven && host.Some? && KeepsOutside(host.value, o.written)
  {
    var rules := Format(version, compiled);
    if outputGiven && host.None? then
      Create(rules)
    else if outputGiven then
      Update(host.value, rules, version, force)
    else
      Print(rules)
  }

  /** A block is found in `content`, and `written` keeps the text before and after it. */
  predicate KeepsOutside(content: string, written: string) {
    match Locate(content)
    case None => false
    case Some(l) =>
      content[..l.start] <= written && |content| - End(l) <= |written|
      && written[|written| - (|content| - End(l))..] == content[End(l)..]
  }

  /**
   * An existing output file (src/index.ts lines 67-96): the block is appended when none is
   * found; a found block is replaced when the policy or `--force` allows it, and otherwise
   * nothing is written.
   */
  function Update(content: string, rules: string, version: string, force: bool): (o: Outcome)
    ensures o.Append? || o.Replace? || o.Refuse?
    ensures o.Append? <==> Locate(content).None?
    ensures o.Append? ==> content <= o.written
    ensures o.Replace? ==> KeepsOutside(content, o.written)
  {
    match Locate(content)
    case None => Append(content + "\n\n" + rules + "\n")
    case Some(l) =>
      if CanOverwrite(l.hit.major, l.hit.minor, l.hit.patch, version) || force then
        MatchedTextFirstOccurrence(content, l);
        Replace(ReplaceFirst(content, Text(l.hit), rules))
      else
        Refuse
  }

  /** A missing output file receives the block alone. */
  lemma CreateWritesBlockAlone(compiled: string, version: string, force: bool)
    ensures Run(true, None, compiled, version, force)
            == Create(OpenMarker(version) + "\n" + compiled + "\n" + CloseMarker)
  {
  }

  /** Without an output path the block is only printed. */
  lemma PrintWithoutOutput(host: Option<string>, compiled: string, version: string, force: bool)
    ensures Run(false, host, compiled, version, force) == Print(Format(version, compiled))
  {
  }

  /** A file without a block keeps its content as a prefix; the block follows after a blank line. */
  lemma AppendKeepsContent(content: string, compiled: string, version: string, force: bool)
    requires Locate(content).None?
    ensures Run(true, Some(content), compiled, version, force)
            == Append(content + "\n\n" + Format(version, compiled) + "\n")
    ensures content <= Run(true, Some(content), compiled, version, force).written
  {
  }

  /** Hand-written content with no `<` at all is always appended to. */
  lemma AppendToPlainContent(content: string, compiled: string, version: string, force: bool)
    requires '<' !in content
    ensures Run(true, Some(content), compiled, version, force)
            == Append(content + "\n\n" + Format(version, compiled) + "\n")
  {
    NoAngleNoMatch(content);
  }

  /**
   * Replacement acts on the first matched span: the text before and after it is kept, and the
   * span becomes the new block after `replace`'s `$` substitutions.
   */
  lemma ReplaceSplicesMatch(content: string, compiled: string, version: string, force: bool, l: Located)
    requires Locate(content) == Some(l)
    requires IsDigit(l.hit.major)
    requires CanOverwrite(l.hit.major, l.hit.minor, l.hit.patch, version) || force
    ensures var before, after := content[..l.start], content[End(l)..];
            Run(true, Some(content), compiled, version, force)
            == Replace(before + Substitute(Format(version, compiled), Text(l.hit), before, after) + after)
  {
    MatchedTextFirstOccurrence(content, l);
  }

  /** When the new block has no `$` substitutions, exactly the matched span is replaced by it. */
  lemma ReplaceKeepsOutside(content: string, compiled: string, version: string, force: bool, l: Located)
    requires Locate(content) == Some(l)
    requires IsDigit(l.hit.major)
    requires CanOverwrite(l.hit.major, l.hit.minor, l.hit.patch, version) || force
    requires NoDollarEscape(version) && NoDollarEscape(compiled)
    ensures Run(true, Some(content), compiled, version, force)
            == Replace(content[..l.start] + Format(version, compiled) + content[End(l)..])
  {
    ReplaceSplicesMatch(content, compiled, version, force, l);
    FormatNoDollarEscape(version, compiled);
    SubstituteLiteral(Format(version, compiled), Text(l.hit), content[..l.start], content[End(l)..]);
  }

  /** The markers add no `$` escapes to a template whose version and rules have none. */
  lemma FormatNoDollarEscape(version: string, compiled: string)
    requires NoDollarEscape(version) && NoDollarEscape(compiled)
    ensures NoDollarEscape(Format(version, compiled))
  {
    var head := "// " + OpenTag;
    NoDollarNoEscape(head);
    NoDollarNoEscape("\">");
    NoDollarNoEscape("\n");
    NoDollarNoEscape(CloseMarker);
    NoDollarEscapeConcat(head, version);
    var a := head + version;
    NoDollarEscapeConcat(a, "\">");
    assert OpenMarker(version) == a + "\">";
    var b := OpenMarker(version);
    NoDollarEscapeConcat(b, "\n");
    NoDollarEscapeConcat(b + "\n", compiled);
    var c := b + "\n" + compiled;
    NoDollarEscapeConcat(c, "\n");
    NoDollarEscapeConcat(c + "\n", CloseMarker);
  }

  /** Substituting into the block of rules text `$'` puts the text after the match in its place. */
  lemma SubstituteQuoteRules(version: string, matched: string, before: string, after: string)
    requires '$' !in version
    ensures Substitute(Format(version, "$'"), matched, before, after) == Format(version, after)
  {
    var head := OpenMarker(version) + "\n";
    var tail := "\n" + CloseMarker;
    NoDollarNoEscape(head);
    NoDollarNoEscape(tail);
    SubstituteOneEscape(head, '\'', tail, matched, before, after);
    assert Format(version, "$'") == head + ['$', '\''] + tail;
    assert Format(version, after) == head + after + tail;
  }


  /** Substituting into the block of rules text `$&` puts the matched text in its place. */
  lemma SubstituteAmpersandRules(version: string, matched: string, before: string, after: string)
    requires '$' !in version
    ensures Substitute(Format(version, "$&"), matched, before, after) == Format(version, matched)
  {
    var head := OpenMarker(version) + "\n";
    var tail := "\n" + CloseMarker;
    NoDollarNoEscape(head);
    NoDollarNoEscape(tail);
    SubstituteOneEscape(head, '&', tail, matched, before, after);
    assert Format(version, "$&") == head + ['$', '&'] + tail;
    assert Format(version, matched) == head + matched + tail;
  }


  /**
   * Re-running is not idempotent for rules text holding a `$` pattern: a file holding only the
   * block of rules text `$&` is rewritten with that whole block nested as the new rules text.
   */
  lemma AmpersandRulesRerunNests(version: string, force: bool)
    requires IsSingleDigitVersion(version)
    ensures var block := Format(version, "$&");
            Run(true, Some(block), "$&", version, force) == Replace(Format(version, block))
  {
    var block := Format(version, "$&");
    assert NoLineTerminator("$&");
    FormatLocateRoundTrip(version, "$&");
    var l := Located(0, FormattedHit(version, "$&"));
    SameVersionAllowed(l.hit);
    assert '$' !in version;
    ReplaceSplicesMatch(block, "$&", version, force, l);
    SubstituteAmpersandRules(version, block, block[..0], block[|block|..]);
    assert block[..0] == [] && block[|block|..] == [];
  }

  /**
   * `replace` reads `$` patterns in the new block: rules text consisting of `$'` is written as
   * the text that follows the old block, so the new block is not the formatted one.
   */
  lemma DollarRulesExpanded(content: string, version: string, force: bool, l: Located)
    requires Locate(content) == Some(l)
    requires IsDigit(l.hit.major)
    requires CanOverwrite(l.hit.major, l.hit.minor, l.hit.patch, version) || force
    requires '$' !in version
    ensures var after := content[End(l)..];
            Run(true, Some(content), "$'", version, force)
            == Replace(content[..l.start] + Format(version, after) + after)
  {
    ReplaceSplicesMatch(content, "$'", version, force, l);
    SubstituteQuoteRules(version, Text(l.hit), content[..l.start], content[End(l)..]);
  }

  /** With `--force` a located block is always replaced, whatever the versions. */
  lemma ForceAlwaysReplaces(content: string, compiled: string, version: string)
    requires Locate(content).Some?
    ensures Run(true, Some(content), compiled, version, true).Replace?
  {
  }

  /** Nothing is written exactly when a located block conflicts and `--force` is absent. */
  lemma RefuseExactly(outputGiven: bool, host: Option<string>, compiled: string, version: string, force: bool)
    ensures Run(outputGiven, host, compiled, version, force).Refuse?
            <==> outputGiven && host.Some? && Conflicts(host.value, version) && !force
  {
  }

  /** Creating a file and running again with the same version and rules leaves it unchanged. */
  lemma CreateThenRerunIdempotent(compiled: string, version: string, force: bool)
    requires IsSingleDigitVersion(version) && NoLineTerminator(compiled) && NoDollarEscape(compiled)
    ensures Run(true, None, compiled, version, force) == Create(Format(version, compiled))
    ensures Run(true, Some(Format(version, compiled)), compiled, version, force)
            == Replace(Format(version, compiled))
  {
    FormatLocateRoundTrip(version, compiled);
    RerunLeavesFileUnchanged(Format(version, compiled), Located(0, FormattedHit(version, compiled)), force);
  }

  /**
   * Re-running with the version and rules text of the located block, written with single
   * spaces as the formatter writes them, leaves the whole file unchanged.
   */
  lemma RerunLeavesFileUnchanged(content: string, l: Located, force: bool)
    requires Locate(content) == Some(l)
    requires l.hit.openSpace == ' ' && l.hit.closeSpace == ' ' && NoDollarEscape(l.hit.body)
    ensures Run(true, Some(content), l.hit.body, Version(l.hit), force) == Replace(content)
  {
    var v := Version(l.hit);
    CanonicalText(l.hit);
    SameVersionAllowed(l.hit);
    NoDollarNoEscape(v);
    ReplaceKeepsOutside(content, l.hit.body, v, force, l);
    SpliceBack(content, l.start, End(l));
  }

  lemma SameVersionAllowed(h: Hit)
    requires WellFormed(h)
    ensures CanOverwrite(h.major, h.minor, h.patch, Version(h))
  {
    ExactVersionAllowed(h.major, h.minor, h.patch);
  }

  /** The block a file starts with is found, and it ends where the formatted block ends. */
  lemma LeadingBlockFound(oldVersion: string, oldRules: string, rest: string)
    requires IsSingleDigitVersion(oldVersion) && NoLineTerminator(oldRules)
    ensures var l := Located(0, FormattedHit(oldVersion, oldRules));
            Locate(Format(oldVersion, oldRules) + rest) == Some(l)
            && IsDigit(l.hit.major) && End(l) == |Format(oldVersion, oldRules)|
  {
    FirstBlockLocated(oldVersion, oldRules, rest);
    FormatLocateRoundTrip(oldVersion, oldRules);
  }

  /** When the file holds several blocks, only the first is replaced; the rest is kept as it is. */
  lemma OnlyFirstBlockReplaced(oldVersion: string, oldRules: string, rest: string,
                               compiled: string, version: string)
    requires IsSingleDigitVersion(oldVersion) && NoLineTerminator(oldRules)
    requires NoDollarEscape(version) && NoDollarEscape(compiled)
    ensures Run(true, Some(Format(oldVersion, oldRules) + rest), compiled, version, true)
            == Replace(Format(version, compiled) + rest)
  {
    var first := Format(oldVersion, oldRules);
    var content := first + rest;
    LeadingBlockFound(oldVersion, oldRules, rest);
    var l := Located(0, FormattedHit(oldVersion, oldRules));
    ReplaceKeepsOutside(content, compiled, version, true, l);
    var block := Format(version, compiled);
    assert content[..l.start] + block + content[End(l)..] == block + rest by {
      assert content[..0] == [];
      assert content[|first|..] == rest;
    }
  }

  /**
   * Rules text spanning several lines is not recognised when read back: running again with the
   * same version and rules appends a second copy of the block instead of replacing the first.
   */
  lemma MultiLineRulesAppendedAgain(compiled: string, version: string, force: bool)
    requires IsSingleDigitVersion(version) && !NoLineTerminator(compiled)
    requires !Contains(compiled, OpenTag) && !Contains(compiled, CloseTag)
    ensures var block := Format(version, compiled);
            Run(true, Some(block), compiled, version, force) == Append(block + "\n\n" + block + "\n")
  {
    assert '<' !in version;
    LocateFormatIff(version, compiled);
  }

  /** Rules text holding a comparison, such as `a <= 1` on one line and `b` on the next, is appended again. */
  lemma ComparisonRulesAppendedAgain(force: bool)
    ensures var block := Format("1.2.3", "a <= 1\nb");
            Run(true, Some(block), "a <= 1\nb", "1.2.3", force) == Append(block + "\n\n" + block + "\n")
  {
    var rules := "a <= 1\nb";
    assert !NoLineTerminator(rules) by {
      assert IsLineTerminator(rules[6]);
    }
    assert !Contains(rules, CloseTag) by {
      assert rules[0] != CloseTag[0];
    }
    MultiLineRulesAppendedAgain(rules, "1.2.3", force);
  }

  /** A block whose version has a component of two digits is not recognised either. */
  lemma LongVersionAppendedAgain(compiled: string, version: string, force: bool)
    requires '<' !in version && !IsSingleDigitVersion(version)
    requires !Contains(compiled, OpenTag) && !Contains(compiled, CloseTag)
    ensures var block := Format(version, compiled);
            Run(true, Some(block), compiled, version, force) == Append(block + "\n\n" + block + "\n")
  {
    LocateFormatIff(version, compiled);
  }

  /** The conflict scenario: a block of version 1.0.0 is not replaced by version 2.0.0 ... */
  lemma MajorUpgradeRefused(oldRules: string, compiled: string)
    requires NoLineTerminator(oldRules)
    ensures Run(true, Some(Format("1.0.0", oldRules)), compiled, "2.0.0", false) == Refuse
  {
    FormatLocateRoundTrip("1.0.0", oldRules);
    var h := FormattedHit("1.0.0", oldRules);
    assert h.major == '1';
    ExampleNewMajor(h.minor, h.patch);
  }

  /** ... unless `--force` is given, and then the old block gives way to the new one. */
  lemma MajorUpgradeForced(oldRules: string, compiled: string)
    requires NoLineTerminator(oldRules) && NoDollarEscape(compiled)
    ensures Run(true, Some(Format("1.0.0", oldRules)), compiled, "2.0.0", true)
            == Replace(Format("2.0.0", compiled))
  {
    NoDollarNoEscape("2.0.0");
    OnlyFirstBlockReplaced("1.0.0", oldRules, "", compiled, "2.0.0");
    assert Format("1.0.0", oldRules) + "" == Format("1.0.0", oldRules);
    assert Format("2.0.0", compiled) + "" == Format("2.0.0", compiled);
  }

  /** The hand-written-file scenario: the existing text stays in front of the appended block. */
  lemma HandWrittenScenario(compiled: string, version: string, force: bool)
    ensures Run(true, Some("// hand code\n"), compiled, version, force)
            == Append("// hand code\n" + "\n\n" + Format(version, compiled) + "\n")
  {
    AppendToPlainContent("// hand code\n", compiled, version, force);
  }
}
