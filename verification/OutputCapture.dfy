/** Truncation of captured process output (orchestrator/exec/output_capture.py). */
module OutputCapture {
  import opened Utf8

  const TEXT_LIMIT_BYTES: nat := 8192

  /** The text that text mode keeps, and whether it was cut. */
  datatype Capture = Capture(output: string, truncated: bool)

  lemma {:induction false} EncodePrefixMonotone(s: string, i: nat, j: nat)
    requires i <= j <= |s|
    ensures |Encode(s[..i])| <= |Encode(s[..j])| <= |Encode(s)|
  {
    assert s[..j] == s[..i] + s[i..j];
    EncodeConcat(s[..i], s[i..j]);
    assert s == s[..j] + s[j..];
    EncodeConcat(s[..j], s[j..]);
  }

  /** A prefix of text that fits, while one more character does not, encodes to `StrictPrefix`. */
  lemma FittingTextPrefix(text: string, limit: nat, i: nat)
    requires i <= |text|
    requires |Encode(text[..i])| <= limit
    requires i < |text| ==> |Encode(text[..i + 1])| > limit
    ensures Encode(text[..i]) == StrictPrefix(Encode(text), limit)
  {
    var v, n := Encode(text), |Encode(text[..i])|;
    assert text == text[..i] + text[i..];
    EncodeConcat(text[..i], text[i..]);
    assert v[..n] == Encode(text[..i]);
    EncodeDecodes(text[..i]);
    forall k | Boundary(v, k) && k <= limit
      ensures k <= n
    {
      var j := BoundariesOfEncoding(text, k);
      if j > i {
        EncodePrefixMonotone(text, i + 1, j);
      } else {
        EncodePrefixMonotone(text, j, i);
      }
    }
    StrictPrefixIsGreatest(v, limit);
    GreatestBoundaryUnique(v, limit, n, |StrictPrefix(v, limit)|);
  }

  /** The shared loop: keep `limit` characters, then drop the last one until the bytes fit. */
  method TruncateText(text: string, limit: nat) returns (output: string)
    ensures output <= text
    ensures Encode(output) == StrictPrefix(Encode(text), limit)
  {
    var kept := if |text| <= limit then |text| else limit;
    output := text[..kept];
    if kept < |text| {
      assert |Encode(text[..kept + 1])| >= kept + 1 > limit;
    }
    while |Encode(output)| > limit
      invariant |output| <= |text| && output == text[..|output|]
      invariant |output| < |text| ==> |Encode(text[..|output| + 1])| > limit
      decreases |output|
    {
      output := output[..|output| - 1];
    }
    assert output == text ==> Encode(output) == Encode(text);
    FittingTextPrefix(text, limit, |output|);
  }

  /** `_capture_text`, and the parse-error fallback of `_capture_json`. */
  method CaptureText(text: string) returns (r: Capture)
    ensures r.truncated <==> |Encode(text)| > TEXT_LIMIT_BYTES
    ensures !r.truncated ==> r.output == text
    ensures Encode(r.output) == StrictPrefix(Encode(text), TEXT_LIMIT_BYTES)
  {
    if |Encode(text)| > TEXT_LIMIT_BYTES {
      var output := TruncateText(text, TEXT_LIMIT_BYTES);
      r := Capture(output, true);
    } else {
      assert text[..|text|] == text;
      FittingTextPrefix(text, TEXT_LIMIT_BYTES, |text|);
      r := Capture(text, false);
    }
  }
}
