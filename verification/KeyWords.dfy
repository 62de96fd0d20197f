/**
 The words of the keybindings file, spelled out: what each modifier word and key name means, and
 how a binding is put together from them.

 `Keyboard` proves that printing and parsing undo each other, which leaves open which words they
 use; the theorems here name the words.
 */
module KeyWords {
  import opened Wrappers
  import opened Text
  import opened Keyboard

  // ----- modifiers -----

  function Or(d: Draft, m: Draft): Draft {
    Draft(d.ctrl || m.ctrl, d.alt || m.alt, d.shift || m.shift, d.cmd || m.cmd, d.meta || m.meta, d.key)
  }

  function Holding(parsed: Result<Keystroke>, m: Draft): Result<Keystroke> {
    match parsed
    case Err => Err
    case Ok(k) =>
      Ok(Keystroke(k.ctrl || m.ctrl, k.alt || m.alt, k.shift || m.shift, k.cmd || m.cmd, k.meta || m.meta, k.key))
  }

  lemma HoldAdds(d: Draft, m: Draft, modifier: Modifier)
    ensures Hold(Or(d, m), modifier) == Or(Hold(d, modifier), m)
  {
    match modifier {
      case Ctrl => assert Hold(d, modifier) == d.(ctrl := true);
      case Alt => assert Hold(d, modifier) == d.(alt := true);
      case Shift => assert Hold(d, modifier) == d.(shift := true);
      case Cmd => assert Hold(d, modifier) == d.(cmd := true);
      case Meta => assert Hold(d, modifier) == d.(meta := true);
    }
  }

  lemma NamedAdds(part: string, pf: Platform, d: Draft, m: Draft)
    ensures SetByName(part, pf, d).None? ==> SetByName(part, pf, Or(d, m)).None?
    ensures SetByName(part, pf, d).Some? ==>
              SetByName(part, pf, Or(d, m)) == Some(Or(SetByName(part, pf, d).value, m))
  {
    var modifier := ModifierNamed(part, pf.isMac);
    if modifier.Some? {
      HoldAdds(d, m, modifier.value);
    } else if part == "space" {
      assert Or(d, m).(key := Some(" ")) == Or(d.(key := Some(" ")), m);
    }
  }

  lemma FinishAdds(d: Draft, m: Draft, key: Option<string>)
    ensures Finish(Or(d, m).(key := key)) == Holding(Finish(d.(key := key)), m)
  {
  }

  // Modifiers seen before the rest are simply added to what the rest says.
  lemma {:induction false} ParseAdds(parts: seq<string>, dash: bool, pf: Platform, d: Draft, m: Draft)
    ensures ParseFrom(parts, dash, pf, Or(d, m)) == Holding(ParseFrom(parts, dash, pf, d), m)
  {
    if parts == [] {
      FinishAdds(d, m, d.key);
      assert d.(key := d.key) == d && Or(d, m).(key := d.key) == Or(d, m);
    } else {
      var part := parts[0];
      NamedAdds(part, pf, d, m);
      FinishAdds(d, m, Some("-"));
      FinishAdds(d, m, Some(part));
      if SetByName(part, pf, d).Some? { ParseAdds(parts[1..], dash, pf, SetByName(part, pf, d).value, m); }
    }
  }

  lemma ParseAfter(name: string, s: string, pf: Platform, m: Draft)
    requires '-' !in name && SetByName(name, pf, Blank) == Some(m) && m.key.None?
    ensures Parse(name + "-" + s, pf) == Holding(Parse(s, pf), m)
  {
    var source := name + "-" + s;
    var dash := source[|source| - 1] == '-';
    assert source == Flag(true, name) + s;
    ParseFlag(true, name, s, dash, pf, Blank);
    ParseAdds(Split(s, '-'), dash, pf, Blank, m);
    assert Or(Blank, m) == m;
    if s == "" { assert Split(s, '-') == [[]]; }
  }

  function Holds(parsed: Result<Keystroke>, word: string, isMac: bool): Result<Keystroke> {
    if parsed.Err? then Err
    else
      var k := parsed.value;
      match word
      case "ctrl" => Ok(k.(ctrl := true))
      case "alt" => Ok(k.(alt := true))
      case "shift" => Ok(k.(shift := true))
      case "cmd" => Ok(k.(cmd := true))
      case "meta" => Ok(k.(meta := true))
      case _ => Ok(if isMac then k.(cmd := true) else k.(ctrl := true))
  }

  /** Each modifier word in front of a keystroke's text holds that modifier and leaves the rest of the
      keystroke as it was; text that does not parse still does not. */
  lemma ModifierWords(word: string, s: string, pf: Platform)
    requires word in {"ctrl", "alt", "shift", "cmd", "meta", "cmdorctrl"}
    ensures Parse(word + "-" + s, pf) == Holds(Parse(s, pf), word, pf.isMac)
  {
    ParseAfter(word, s, pf, SetByName(word, pf, Blank).value);
  }

  function If(on: bool, text: string): string {
    if on then text else ""
  }

  lemma FlagsSpellOut(on: bool)
    ensures Flag(on, "ctrl") == If(on, "ctrl-") && Flag(on, "alt") == If(on, "alt-")
    ensures Flag(on, "shift") == If(on, "shift-") && Flag(on, "cmd") == If(on, "cmd-")
    ensures Flag(on, "meta") == If(on, "meta-")
  {
  }

  /** A keystroke is printed as its modifiers in the order ctrl, alt, shift, cmd, meta, each followed
      by a dash, and then its key, where the space bar is written `space`. */
  lemma PrintedModifiers(k: Keystroke)
    ensures Normalized(k) ==
            If(k.ctrl, "ctrl-") + (If(k.alt, "alt-") + (If(k.shift, "shift-")
            + (If(k.cmd, "cmd-") + (If(k.meta, "meta-") + if k.key == " " then "space" else k.key))))
  {
    FlagsSpellOut(k.ctrl);
    FlagsSpellOut(k.alt);
    FlagsSpellOut(k.shift);
    FlagsSpellOut(k.cmd);
    FlagsSpellOut(k.meta);
  }

  // ----- keys -----

  // The names of the keys that are not one character.
  predicate NamesAKey(word: string) {
    || word in {"up", "down", "left", "right", "home", "end", "pageup", "pagedown"}
    || word in {"backspace", "delete", "insert", "enter", "numpadenter", "escape", "tab"}
    || word in {"f1", "f2", "f3", "f4", "f5", "f6", "f7", "f8", "f9", "f10"}
    || word in {"f11", "f12", "f13", "f14", "f15", "f16", "f17", "f18", "f19", "f20"}
  }

  lemma NamedKeysAre(word: string)
    ensures word in VALID_SPECIAL_KEYS <==> NamesAKey(word)
  {
  }

  lemma OneWord(word: string, pf: Platform)
    requires '-' !in word
    ensures Parse(word, pf) ==
            match SetByName(word, pf, Blank)
            case Some(d) => Finish(d)
            case None => if pf.IsValidKey(word) then Finish(Blank.(key := Some(word))) else Err
  {
    SplitWord(word, '-');
    var dash := word != [] && word[|word| - 1] == '-';
    assert Parse(word, pf) == ParseFrom([word], dash, pf, Blank);
    assert [word][1..] == [];
    if SetByName(word, pf, Blank).Some? {
      assert ParseFrom([], dash, pf, SetByName(word, pf, Blank).value) == Finish(SetByName(word, pf, Blank).value);
    }
  }

  lemma DashAlone(pf: Platform)
    ensures Parse("-", pf) == Ok(Keystroke(false, false, false, false, false, "-"))
  {
    assert Split("-"[1..], '-') == [[]];
    assert Split("-", '-') == [[], []];
  }

  /** A word without a dash is a key by itself exactly when it is one character, a named key or
      `space`; and a dash alone is the dash key. */
  lemma PlainWordParsesIff(word: string, isMac: bool)
    requires '-' !in word
    ensures Parse(word, Desktop(isMac)) ==
            if word == "space" then Ok(Keystroke(false, false, false, false, false, " "))
            else if |word| == 1 || NamesAKey(word) then Ok(Keystroke(false, false, false, false, false, word))
            else Err
    ensures Parse("-", Desktop(isMac)) == Ok(Keystroke(false, false, false, false, false, "-"))
  {
    OneWord(word, Desktop(isMac));
    DashAlone(Desktop(isMac));
    NamedKeysAre(word);
    if word in VALID_SPECIAL_KEYS { SpecialKeyIsPlain(word); }
  }

  lemma {:induction false} FirstPart(s: string)
    ensures Split(s, '-')[0] == "" <==> s == "" || s[0] == '-'
  {
  }

  /** Any other word in front of a dash is an error, unless nothing follows, or something that begins and
      ends with a dash: then the word, and all that follows, is dropped and the dash key is read. */
  lemma OtherWordBeforeDash(word: string, s: string, pf: Platform)
    requires '-' !in word && word !in {"ctrl", "alt", "shift", "cmd", "meta", "cmdorctrl", "space"}
    ensures Parse(word + "-" + s, pf) ==
            if s == "" || (s[0] == '-' && s[|s| - 1] == '-')
            then Ok(Keystroke(false, false, false, false, false, "-")) else Err
  {
    var source := word + "-" + s;
    assert word + ['-'] + s == source;
    SplitAfterWord(word, s, '-');
    FirstPart(s);
    var parts := Split(source, '-');
    assert parts[0] == word && parts[1..] == Split(s, '-');
    assert SetByName(word, pf, Blank).None?;
    assert source[|source| - 1] == if s == "" then '-' else s[|s| - 1];
  }

  /** `x-` and `x--y-` are read as the dash key alone. */
  lemma DroppedWords(pf: Platform)
    ensures Parse("x-", pf) == Parse("x--y-", pf) == Ok(Keystroke(false, false, false, false, false, "-"))
  {
    OtherWordBeforeDash("x", "", pf);
    OtherWordBeforeDash("x", "-y-", pf);
    assert "x" + "-" + "" == "x-" && "x" + "-" + "-y-" == "x--y-";
  }

  // ----- whole bindings -----

  lemma {:induction false} JoinSnoc(words: seq<string>, last: string)
    requires words != []
    ensures Join(words + [last]) == Join(words) + " " + last
  {
    if |words| > 1 {
      JoinSnoc(words[1..], last);
      assert (words + [last])[1..] == words[1..] + [last];
    } else {
      assert (words + [last])[1..] == [last];
    }
  }

  /** A binding is written as its keystrokes with one space between them, and a removed one as `none`,
      which is read as nothing else. */
  lemma BindingText(ks: seq<Keystroke>, k: Keystroke, pf: Platform)
    ensures Print(Keystrokes([k])) == Normalized(k)
    ensures ks != [] ==> Print(Keystrokes(ks + [k])) == Print(Keystrokes(ks)) + " " + Normalized(k)
    ensures Print(Removed) == "none" && ParseTrigger("none", pf) == Ok(Removed)
  {
    assert NormalizedAll(ks + [k]) == NormalizedAll(ks) + [Normalized(k)];
    assert NormalizedAll([k]) == [Normalized(k)];
    if ks != [] { JoinSnoc(NormalizedAll(ks), Normalized(k)); }
  }

  // The words before a whitespace character and those after it.
  lemma {:induction false} WordsAround(a: string, c: char, b: string)
    requires IsWhitespace(c)
    ensures SplitWhitespace(a + [c] + b) == SplitWhitespace(a) + SplitWhitespace(b)
    decreases |a|
  {
    var s := a + [c] + b;
    if a == [] {
      assert s[1..] == b;
    } else if IsWhitespace(a[0]) {
      assert s[1..] == a[1..] + [c] + b;
      WordsAround(a[1..], c, b);
    } else {
      WordLengthStops(a, c, b);
      var n := WordLength(a);
      assert s[..n] == a[..n] && s[n..] == a[n..] + [c] + b;
      WordsAround(a[n..], c, b);
    }
  }

  lemma {:induction false} WordLengthStops(a: string, c: char, b: string)
    requires IsWhitespace(c)
    ensures WordLength(a + [c] + b) == WordLength(a)
  {
    var s := a + [c] + b;
    if a != [] {
      assert s[0] == a[0] && s[1..] == a[1..] + [c] + b;
      if !IsWhitespace(a[0]) { WordLengthStops(a[1..], c, b); }
    }
  }

  lemma {:induction false} ParseAllOfBoth(u: seq<string>, v: seq<string>, pf: Platform)
    ensures ParseAll(u + v, pf) ==
            if ParseAll(u, pf).Err? || ParseAll(v, pf).Err? then Err
            else Ok(ParseAll(u, pf).value + ParseAll(v, pf).value)
  {
    if v == [] {
      assert u + v == u;
      if ParseAll(u, pf).Ok? { assert ParseAll(u, pf).value + [] == ParseAll(u, pf).value; }
    } else {
      assert (u + v)[..|u + v| - 1] == u + v[..|v| - 1];
      ParseAllOfBoth(u, v[..|v| - 1], pf);
      assert (u + v)[|u + v| - 1] == v[|v| - 1];
      var init, last := ParseAll(v[..|v| - 1], pf), Parse(v[|v| - 1], pf);
      if ParseAll(u, pf).Ok? && init.Ok? && last.Ok? {
        assert ParseAll(u, pf).value + init.value + [last.value] == ParseAll(u, pf).value + (init.value + [last.value]);
      }
    }
  }

  /** Any whitespace separates keystrokes: two binding texts with one such character between them read
      as the keystrokes of the first and then those of the second. */
  lemma WhitespaceSeparates(a: string, c: char, b: string, pf: Platform, ks: seq<Keystroke>, ls: seq<Keystroke>)
    requires IsWhitespace(c)
    requires ParseTrigger(a, pf) == Ok(Keystrokes(ks)) && ParseTrigger(b, pf) == Ok(Keystrokes(ls))
    ensures ParseTrigger(a + [c] + b, pf) == Ok(Keystrokes(ks + ls))
  {
    WordsAround(a, c, b);
    ParseAllOfBoth(SplitWhitespace(a), SplitWhitespace(b), pf);
    var s := a + [c] + b;
    assert s[|a|] == c;
    assert s != "none" by {
      assert forall x :: x in "none" ==> !IsWhitespace(x);
    }
  }
}
