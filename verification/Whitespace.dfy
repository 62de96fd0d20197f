/** Which characters count as whitespace, listed one by one, and what trimming does with them. */
module Whitespace {
  import opened Text

  // The characters that Unicode gives the White_Space property.
  const WHITE_SPACE: string :=
    "\U{9}\U{A}\U{B}\U{C}\U{D}\U{20}\U{85}\U{A0}\U{1680}"
    + "\U{2000}\U{2001}\U{2002}\U{2003}\U{2004}\U{2005}\U{2006}\U{2007}\U{2008}\U{2009}\U{200A}"
    + "\U{2028}\U{2029}\U{202F}\U{205F}\U{3000}"

  lemma WhitespaceIs(c: char)
    ensures IsWhitespace(c) <==> c in WHITE_SPACE
  {
  }

  lemma {:induction false} TrimStartSkips(pad: string, s: string)
    requires forall c :: c in pad ==> IsWhitespace(c)
    ensures TrimStart(pad + s) == TrimStart(s)
  {
    if pad != [] {
      assert pad[0] in pad && (pad + s)[1..] == pad[1..] + s;
      TrimStartSkips(pad[1..], s);
    } else {
      assert pad + s == s;
    }
  }

  lemma {:induction false} TrimEndSkips(s: string, pad: string)
    requires forall c :: c in pad ==> IsWhitespace(c)
    ensures TrimEnd(s + pad) == TrimEnd(s)
  {
    if pad != [] {
      var n := |pad| - 1;
      assert pad[n] in pad && (s + pad)[..|s + pad| - 1] == s + pad[..n];
      TrimEndSkips(s, pad[..n]);
    } else {
      assert s + pad == s;
    }
  }

  /** Padding a text that has no whitespace at its ends with any of the 25 Unicode whitespace
      characters, and trimming, gives the text back; and text of other characters is never trimmed. */
  lemma PaddingIsTrimmed(before: string, s: string, after: string)
    requires forall c :: c in before + after ==> c in WHITE_SPACE
    ensures s != [] && s[0] !in WHITE_SPACE && s[|s| - 1] !in WHITE_SPACE ==> Trim(before + s + after) == s == Trim(s)
    ensures Trim(before + after) == []
  {
    assert forall c :: c in before ==> c in before + after;
    assert forall c :: c in after ==> c in before + after;
    forall c: char ensures IsWhitespace(c) <==> c in WHITE_SPACE {
      WhitespaceIs(c);
    }
    TrimStartSkips(before, s + after);
    assert before + (s + after) == before + s + after;
    TrimStartSkips(before + after, []);
    assert before + after + [] == before + after;
    TrimEndSkips(s, after);
  }
}
