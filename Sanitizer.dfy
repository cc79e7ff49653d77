/** The text sanitiser `TextTag`: a metadata string that contains a comma is wrapped
    in square brackets, any other string is kept as it is. */
module Sanitizer {

  /** `TextTag`: tags exactly the strings that contain a comma, by wrapping them in
      brackets; the result has a comma exactly when the input has one. */
  function TextTag(text: string): (r: string)
    ensures r == text <==> ',' !in text
    ensures ',' in r <==> ',' in text
    ensures ',' in text ==> r == "[" + text + "]"
  {
    if ',' in text then "[" + text + "]" else text
  }

  /** Applying the tag a second time changes nothing exactly when the text has no
      comma: it is not idempotent. */
  lemma TextTagIdempotentIff(text: string)
    ensures TextTag(TextTag(text)) == TextTag(text) <==> ',' !in text
  {
    if ',' in text {
      assert |TextTag(TextTag(text))| == |text| + 4;
    }
  }

  /** `TextTag("a,b") == "[a,b]"` and `TextTag(TextTag("a,b")) == "[[a,b]]"`. */
  lemma TextTagNestsOnComma()
    ensures TextTag("a,b") == "[a,b]"
    ensures TextTag(TextTag("a,b")) == "[[a,b]]"
  {
    assert "a,b"[1] == ',';
    assert "[a,b]"[2] == ',';
  }

  /** No information is lost: different texts get different tags. */
  lemma TextTagInjective(a: string, b: string)
    requires TextTag(a) == TextTag(b)
    ensures a == b
  {
    if ',' in a && ',' in b {
      assert a == TextTag(a)[1..|TextTag(a)| - 1];
      assert b == TextTag(b)[1..|TextTag(b)| - 1];
    }
  }

  /** `n` applications of `TextTag`. */
  function TagTimes(n: nat, text: string): string
  {
    if n == 0 then text else TextTag(TagTimes(n - 1, text))
  }

  /** `n` copies of the character `c`. */
  function Repeat(c: char, n: nat): (r: string)
    ensures |r| == n && forall i :: 0 <= i < n ==> r[i] == c
  {
    seq(n, _ => c)
  }

  /** Every further application of `TextTag` to a text with a comma adds exactly one
      layer of brackets; to a text without one it adds nothing. */
  lemma {:induction false} TagTimesLayers(n: nat, text: string)
    ensures ',' in text ==> TagTimes(n, text) == Repeat('[', n) + text + Repeat(']', n)
    ensures ',' !in text ==> TagTimes(n, text) == text
  {
    if n > 0 {
      TagTimesLayers(n - 1, text);
      if ',' in text {
        var inner := TagTimes(n - 1, text);
        assert ',' in inner by {
          assert inner[n - 1..n - 1 + |text|] == text;
        }
        assert "[" + Repeat('[', n - 1) == Repeat('[', n);
        assert Repeat(']', n - 1) + "]" == Repeat(']', n);
      }
    }
  }
}
