/**
 * The payload formatter: the compiler's rules text wrapped in versioned open and close markers
 * (src/index.ts lines 57-61).
 */
module Formatter {
  import opened JsText

  /** The tag inside the open marker, up to the version. */
  const OpenTag: string := "<js2fr version=\""
  /** The tag inside the close marker. */
  const CloseTag: string := "</js2fr>"

  function OpenMarker(version: string): string {
    "// " + OpenTag + version + "\">"
  }

  const CloseMarker: string := "// " + CloseTag

  /**
   * `[openMarker, rules, closeMarker].join("\n")`: the marker lines around the rules text,
   * separated by single line feeds, with no line feed after the close marker.
   */
  function Format(version: string, rules: string): (block: string)
    ensures block == OpenMarker(version) + "\n" + rules + "\n" + CloseMarker
  {
    Join([OpenMarker(version), rules, CloseMarker], "\n")
  }

  /** Where each part of a formatted block lies. */
  lemma FormatLayout(version: string, rules: string)
    ensures var block := Format(version, rules);
            |block| == |version| + |rules| + 34
            && block[..19] == "// " + OpenTag && block[19..19 + |version|] == version
            && block[19 + |version|..22 + |version|] == "\">\n"
            && block[22 + |version|..22 + |version| + |rules|] == rules
            && block[|block| - 12] == '\n' && block[|block| - 11..] == CloseMarker
  {
    var block := Format(version, rules);
    var head := OpenMarker(version) + "\n";
    assert block == head + rules + ("\n" + CloseMarker);
    assert head == ("// " + OpenTag) + version + "\">\n";
  }
}
