/** The layout the orchestrator uses, and what the general theorems give for it. */
module PromptLayout {
  import opened Text
  import opened Utf8
  import opened SnapshotTypes
  import opened Rendering
  import opened RenderingTheorems

  const HEADER_OPEN := "\n\n=== File: "
  const HEADER_CLOSE := " bytes) ===\n"
  const MARKER := "\n... (truncated)"

  /** `_render_header`. */
  function Header(target: string, shown: nat, total: nat): seq<Byte> {
    Encode(HEADER_OPEN + target + " (" + Decimal(shown) + "/" + Decimal(total) + HEADER_CLOSE)
  }

  function SummaryText(shown: nat, truncated: nat, omitted: nat): string {
    SUMMARY_OPEN + Decimal(MAX_INJECTION_BYTES) + SUMMARY_FILES
    + Decimal(shown) + SUMMARY_SHOWN + Decimal(truncated) + SUMMARY_TRUNCATED + Decimal(omitted) + SUMMARY_OMITTED
  }

  /** `_render_truncation_summary`. */
  function Summary(truncations: seq<Truncation>): seq<Byte> {
    var omitted := CountStatus(truncations, Omitted);
    Encode(SummaryText(|truncations| - omitted, CountStatus(truncations, Truncated), omitted))
  }

  function Standard(): Layout {
    Layout(
      (target: string, shown: nat, total: nat) => Header(target, shown, total),
      Encode(MARKER),
      (truncations: seq<Truncation>) => Summary(truncations))
  }

  lemma DecimalEncodedLength(n: nat)
    ensures |Encode(Decimal(n))| == |Decimal(n)|
  {
    EncodeAsciiLength(Decimal(n));
  }

  lemma HeaderLength(target: string, shown: nat, total: nat)
    ensures |Header(target, shown, total)|
         == |Encode(HEADER_OPEN)| + |Encode(target)| + |Encode(" (")| + |Decimal(shown)|
            + |Encode("/")| + |Decimal(total)| + |Encode(HEADER_CLOSE)|
  {
    var a := HEADER_OPEN + target;
    var b := a + " (";
    var c := b + Decimal(shown);
    var d := c + "/";
    var e := d + Decimal(total);
    EncodeConcat(e, HEADER_CLOSE);
    EncodeConcat(d, Decimal(total));
    EncodeConcat(c, "/");
    EncodeConcat(b, Decimal(shown));
    EncodeConcat(a, " (");
    EncodeConcat(HEADER_OPEN, target);
    DecimalEncodedLength(shown);
    DecimalEncodedLength(total);
  }

  lemma HeaderGrows(target: string, m: nat, n: nat, total: nat)
    requires m <= n
    ensures 0 < |Header(target, m, total)| <= |Header(target, n, total)|
  {
    HeaderLength(target, m, total);
    HeaderLength(target, n, total);
    DecimalLengthMonotone(m, n);
  }

  /** The orchestrator's headers never shrink when they announce a longer prefix. */
  lemma StandardIsOrderly()
    ensures Orderly(Standard())
  {
    forall target, shown, total
      ensures |Standard().header(target, shown, total)| > 0
    {
      HeaderGrows(target, shown, shown, total);
    }
    forall target, m, n, total | m <= n
      ensures |Standard().header(target, m, total)| <= |Standard().header(target, n, total)|
    {
      HeaderGrows(target, m, n, total);
    }
  }

  const SUMMARY_OPEN := "\n\n... Injection truncated at "
  const SUMMARY_FILES := " bytes. Files: "
  const SUMMARY_SHOWN := " shown, "
  const SUMMARY_TRUNCATED := " truncated, "
  const SUMMARY_OMITTED := " omitted."

  predicate Ascii(s: string) {
    forall i :: 0 <= i < |s| ==> s[i] < 128 as char
  }

  lemma AsciiConcat(a: string, b: string)
    requires Ascii(a) && Ascii(b)
    ensures Ascii(a + b)
  {
  }

  lemma SummaryPieces()
    ensures Ascii(SUMMARY_OPEN) && |SUMMARY_OPEN| == 29
    ensures Ascii(SUMMARY_FILES) && |SUMMARY_FILES| == 15
    ensures Ascii(SUMMARY_SHOWN) && |SUMMARY_SHOWN| == 8
    ensures Ascii(SUMMARY_TRUNCATED) && |SUMMARY_TRUNCATED| == 12
    ensures Ascii(SUMMARY_OMITTED) && |SUMMARY_OMITTED| == 9
  {
  }

  /** The summary is ASCII, so it has one byte a character: 79 and the digits of its three counts. */
  lemma SummaryLength(shown: nat, truncated: nat, omitted: nat)
    ensures |Encode(SummaryText(shown, truncated, omitted))| ==
            79 + |Decimal(shown)| + |Decimal(truncated)| + |Decimal(omitted)|
  {
    CapDigits();
    SummaryPieces();
    NinePieces(SUMMARY_OPEN, Decimal(MAX_INJECTION_BYTES), SUMMARY_FILES, Decimal(shown), SUMMARY_SHOWN,
               Decimal(truncated), SUMMARY_TRUNCATED, Decimal(omitted), SUMMARY_OMITTED);
  }

  lemma NinePieces(a: string, b: string, c: string, d: string, e: string, f: string, g: string, h: string, i: string)
    requires Ascii(a) && Ascii(b) && Ascii(c) && Ascii(d) && Ascii(e) && Ascii(f) && Ascii(g) && Ascii(h) && Ascii(i)
    ensures |Encode(a + b + c + d + e + f + g + h + i)| == |a| + |b| + |c| + |d| + |e| + |f| + |g| + |h| + |i|
  {
    AsciiConcat(a, b);
    AsciiConcat(a + b, c);
    AsciiConcat(a + b + c, d);
    AsciiConcat(a + b + c + d, e);
    AsciiConcat(a + b + c + d + e, f);
    AsciiConcat(a + b + c + d + e + f, g);
    AsciiConcat(a + b + c + d + e + f + g, h);
    AsciiConcat(a + b + c + d + e + f + g + h, i);
    EncodeAsciiLength(a + b + c + d + e + f + g + h + i);
  }

  lemma CapDigits()
    ensures |Decimal(MAX_INJECTION_BYTES)| == 6
  {
    assert |Decimal(2)| == 1;
    assert |Decimal(26)| == 2;
    assert |Decimal(262)| == 3;
    assert |Decimal(2621)| == 4;
    assert |Decimal(26214)| == 5;
  }

  /** The summary fits its reserve exactly when its three counts have at most 433 digits together. */
  lemma SummaryFitsReserve(truncations: seq<Truncation>)
    ensures var omitted, cut := CountStatus(truncations, Omitted), CountStatus(truncations, Truncated);
            |Summary(truncations)| <= TRUNCATION_SUMMARY_RESERVE_BYTES <==>
              |Decimal(|truncations| - omitted)| + |Decimal(cut)| + |Decimal(omitted)| <= 433
  {
    var omitted, cut := CountStatus(truncations, Omitted), CountStatus(truncations, Truncated);
    SummaryLength(|truncations| - omitted, cut, omitted);
  }

  /** So it does for up to 144 digits of groups. */
  lemma SummaryOfFewGroupsFits(truncations: seq<Truncation>, k: nat)
    requires 0 < k <= 144 && |truncations| < Pow10(k)
    ensures |Summary(truncations)| <= TRUNCATION_SUMMARY_RESERVE_BYTES
  {
    SummaryFitsReserve(truncations);
    CountsHaveDigits(truncations, k);
  }

  lemma CountsHaveDigits(truncations: seq<Truncation>, k: nat)
    requires 0 < k && |truncations| < Pow10(k)
    ensures |Decimal(|truncations| - CountStatus(truncations, Omitted))| <= k
    ensures |Decimal(CountStatus(truncations, Truncated))| <= k && |Decimal(CountStatus(truncations, Omitted))| <= k
  {
    DecimalLength(|truncations| - CountStatus(truncations, Omitted), k);
    DecimalLength(CountStatus(truncations, Truncated), k);
    DecimalLength(CountStatus(truncations, Omitted), k);
  }

  /** With the number of groups below 10^k for some k up to 144, every instruction within its limit renders to a block
      within the cap. */
  lemma StandardRenderSucceeds(groups: seq<Group>, instructionText: string, k: nat)
    requires AllRenderable(groups) && 0 < k <= 144 && |groups| < Pow10(k)
    requires |Encode(instructionText)| <= MAX_INSTRUCTION_BYTES
    ensures var r := Render(Standard(), groups, instructionText);
            r.Ok? && |r.value.block| <= MAX_INJECTION_BYTES
  {
    StandardIsOrderly();
    forall t: seq<Truncation> | |t| == |groups|
      ensures |Standard().summarize(t)| <= TRUNCATION_SUMMARY_RESERVE_BYTES
    {
      SummaryOfFewGroupsFits(t, k);
    }
    RenderSucceeds(Standard(), groups, instructionText);
    RenderIsCappedAndNeverStuck(Standard(), groups, instructionText);
  }
}
