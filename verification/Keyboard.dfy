/**
 Saved keybindings: how a keystroke is printed and parsed, and how a whole binding is written
 to and read from the text of the keybindings file.
 */
module Keyboard {
  import opened Wrappers
  import opened Text

  datatype Keystroke = Keystroke(ctrl: bool, alt: bool, shift: bool, cmd: bool, meta: bool, key: string)

  // The list in `Keystrokes` is never empty in the source (a Vec1).
  datatype Keybinding = Keystrokes(keystrokes: seq<Keystroke>) | Removed

  const REMOVED_KEYBINDING_SERIALIZATION := "none"

  const FUNCTION_KEYS: set<string> := {
    "f1", "f2", "f3", "f4", "f5", "f6", "f7", "f8", "f9", "f10",
    "f11", "f12", "f13", "f14", "f15", "f16", "f17", "f18", "f19", "f20"
  }

  const NAMED_KEYS: set<string> := {
    "up", "down", "left", "right", "home", "end", "pageup", "pagedown", "backspace", "enter",
    "insert", "delete", "escape", "tab", "numpadenter"
  }

  const VALID_SPECIAL_KEYS: set<string> := NAMED_KEYS + FUNCTION_KEYS

  // What parsing looks up: the operating system, for `cmdorctrl`, and the names of special keys.
  datatype Platform = Platform(isMac: bool, specialKeys: set<string>) {
    predicate IsValidKey(name: string) {
      |name| == 1 || name in specialKeys
    }
  }

  function Desktop(isMac: bool): Platform {
    Platform(isMac, VALID_SPECIAL_KEYS)
  }

  // Names that can be told apart from single characters, modifiers, `space` and `none`.
  ghost predicate PlainNames(names: set<string>) {
    forall name :: name in names ==>
      && |name| > 1 && '-' !in name && NoWhitespace(name)
      && name !in {"ctrl", "alt", "shift", "cmd", "meta", "cmdorctrl", "space", "none"}
  }

  lemma FunctionKeyIsPlain(key: string)
    requires key in FUNCTION_KEYS
    ensures '-' !in key && NoWhitespace(key) && |key| > 1 && key[0] == 'f'
  {
  }

  lemma NamedKeyIsOneWord(key: string)
    requires key in NAMED_KEYS
    ensures '-' !in key && NoWhitespace(key) && |key| > 1
  {
  }

  lemma NamedKeyIsNoKeyword(key: string)
    requires key in {"ctrl", "alt", "shift", "cmd", "meta", "cmdorctrl", "space", "none"}
    ensures key !in NAMED_KEYS && key[0] != 'f'
  {
  }

  lemma SpecialKeyIsPlain(key: string)
    requires key in VALID_SPECIAL_KEYS
    ensures '-' !in key && NoWhitespace(key) && |key| > 1
    ensures key !in {"ctrl", "alt", "shift", "cmd", "meta", "cmdorctrl", "space", "none"}
  {
    if key in FUNCTION_KEYS { FunctionKeyIsPlain(key); } else { NamedKeyIsOneWord(key); }
    if key in {"ctrl", "alt", "shift", "cmd", "meta", "cmdorctrl", "space", "none"} { NamedKeyIsNoKeyword(key); }
  }

  lemma SpecialKeysArePlain()
    ensures PlainNames(VALID_SPECIAL_KEYS)
  {
    var names := VALID_SPECIAL_KEYS;
    forall name | name in names
      ensures '-' !in name && NoWhitespace(name) && |name| > 1
      ensures name !in {"ctrl", "alt", "shift", "cmd", "meta", "cmdorctrl", "space", "none"}
    {
      SpecialKeyIsPlain(name);
    }
  }

  // ----- one keystroke -----

  function Flag(on: bool, name: string): string {
    if on then name + "-" else ""
  }

  function KeyText(key: string): string {
    if key == " " then "space" else key
  }

  function Normalized(k: Keystroke): string {
    Flag(k.ctrl, "ctrl") + (Flag(k.alt, "alt") + (Flag(k.shift, "shift")
    + (Flag(k.cmd, "cmd") + (Flag(k.meta, "meta") + KeyText(k.key)))))
  }

  // str::split: always at least one component.
  function Split(s: string, sep: char): (parts: seq<string>)
    ensures parts != []
  {
    if s == [] then [[]]
    else
      var rest := Split(s[1..], sep);
      if s[0] == sep then [[]] + rest else [[s[0]] + rest[0]] + rest[1..]
  }

  // Modifiers seen so far and the key, while a keystroke is being parsed.
  datatype Draft = Draft(ctrl: bool, alt: bool, shift: bool, cmd: bool, meta: bool, key: Option<string>)

  function Finish(d: Draft): Result<Keystroke> {
    match d.key
    case Some(key) => Ok(Keystroke(d.ctrl, d.alt, d.shift, d.cmd, d.meta, key))
    case None => Err
  }

  datatype Modifier = Ctrl | Alt | Shift | Cmd | Meta

  function ModifierNamed(part: string, isMac: bool): Option<Modifier> {
    if part == "ctrl" then Some(Ctrl)
    else if part == "alt" then Some(Alt)
    else if part == "shift" then Some(Shift)
    else if part == "cmd" then Some(Cmd)
    else if part == "meta" then Some(Meta)
    else if part == "cmdorctrl" then Some(if isMac then Cmd else Ctrl)
    else None
  }

  function Hold(d: Draft, m: Modifier): Draft {
    match m
    case Ctrl => d.(ctrl := true)
    case Alt => d.(alt := true)
    case Shift => d.(shift := true)
    case Cmd => d.(cmd := true)
    case Meta => d.(meta := true)
  }

  // The words that set a flag, or the key to the space bar.
  function SetByName(part: string, pf: Platform, d: Draft): Option<Draft> {
    match ModifierNamed(part, pf.isMac)
    case Some(m) => Some(Hold(d, m))
    case None => if part == "space" then Some(d.(key := Some(" "))) else None
  }

  function ParseFrom(parts: seq<string>, endsWithDash: bool, pf: Platform, d: Draft): Result<Keystroke> {
    if parts == [] then Finish(d)
    else
      var part, rest := parts[0], parts[1..];
      var named := SetByName(part, pf, d);
      if named.Some? then ParseFrom(rest, endsWithDash, pf, named.value)
      else if rest != [] then
        if rest[0] == "" && endsWithDash then Finish(d.(key := Some("-"))) else Err
      else if pf.IsValidKey(part) then Finish(d.(key := Some(part)))
      else Err
  }

  const Blank := Draft(false, false, false, false, false, None)

  function Parse(source: string, pf: Platform): Result<Keystroke> {
    ParseFrom(Split(source, '-'), source != [] && source[|source| - 1] == '-', pf, Blank)
  }

  // ----- whole bindings -----

  function Join(words: seq<string>): string {
    if words == [] then ""
    else if |words| == 1 then words[0]
    else words[0] + " " + Join(words[1..])
  }

  function NormalizedAll(ks: seq<Keystroke>): (words: seq<string>)
    ensures |words| == |ks| && forall i :: 0 <= i < |ks| ==> words[i] == Normalized(ks[i])
  {
    seq(|ks|, i requires 0 <= i < |ks| => Normalized(ks[i]))
  }

  // From<UserDefinedKeybinding> for PersistedTrigger
  function Print(binding: Keybinding): string {
    match binding
    case Keystrokes(ks) => Join(NormalizedAll(ks))
    case Removed => REMOVED_KEYBINDING_SERIALIZATION
  }

  // Length of the run of non-whitespace at the front.
  function WordLength(s: string): (n: nat)
    ensures n <= |s| && (s != [] && !IsWhitespace(s[0]) ==> n > 0)
  {
    if s == [] || IsWhitespace(s[0]) then 0 else 1 + WordLength(s[1..])
  }

  function SplitWhitespace(s: string): seq<string>
    decreases |s|
  {
    if s == [] then []
    else if IsWhitespace(s[0]) then SplitWhitespace(s[1..])
    else [s[..WordLength(s)]] + SplitWhitespace(s[WordLength(s)..])
  }

  // Every word parsed, in order; an error as soon as one does not parse.
  function ParseAll(words: seq<string>, pf: Platform): Result<seq<Keystroke>> {
    if words == [] then Ok([])
    else
      var init, last := ParseAll(words[..|words| - 1], pf), Parse(words[|words| - 1], pf);
      if init.Err? || last.Err? then Err else Ok(init.value + [last.value])
  }

  function ParseTrigger(text: string, pf: Platform): Result<Keybinding> {
    if text == REMOVED_KEYBINDING_SERIALIZATION then Ok(Removed)
    else
      var parsed := ParseAll(SplitWhitespace(text), pf);
      if parsed.Err? || parsed.value == [] then Err else Ok(Keystrokes(parsed.value))
  }

  // TryFrom<PersistedTrigger> for UserDefinedKeybinding
  method TryFrom(text: string, pf: Platform) returns (binding: Result<Keybinding>)
    ensures binding == ParseTrigger(text, pf)
  {
    if text == REMOVED_KEYBINDING_SERIALIZATION {
      return Ok(Removed);
    }
    var words := SplitWhitespace(text);
    var keystrokes: seq<Keystroke> := [];
    for i := 0 to |words|
      invariant ParseAll(words[..i], pf) == Ok(keystrokes)
    {
      assert words[..i + 1][..i] == words[..i];
      var parsed := Parse(words[i], pf);
      if parsed.Err? {
        ErrSpreads(words, pf, i + 1);
        return Err;
      }
      keystrokes := keystrokes + [parsed.value];
    }
    assert words[..|words|] == words;
    if keystrokes == [] {
      return Err;
    }
    return Ok(Keystrokes(keystrokes));
  }

  lemma {:induction false} ErrSpreads(words: seq<string>, pf: Platform, i: nat)
    requires i <= |words| && ParseAll(words[..i], pf).Err?
    ensures ParseAll(words, pf).Err?
  {
    if i == |words| {
      assert words[..i] == words;
    } else {
      assert words[..|words| - 1][..i] == words[..i];
      ErrSpreads(words[..|words| - 1], pf, i);
    }
  }

  // ----- a keystroke's own round trip -----

  // Keys whose text survives being split at whitespace.
  predicate Printable(pf: Platform, key: string) {
    key == " " || (|key| == 1 && !IsWhitespace(key[0])) || key in pf.specialKeys
  }

  lemma {:induction false} SplitAfterWord(word: string, rest: string, sep: char)
    requires sep !in word
    ensures Split(word + [sep] + rest, sep) == [word] + Split(rest, sep)
  {
    var s := word + [sep] + rest;
    if word == [] {
      assert s[1..] == rest;
    } else {
      assert s[0] == word[0] && word[0] in word && s[1..] == word[1..] + [sep] + rest;
      SplitAfterWord(word[1..], rest, sep);
      assert ([word[1..]] + Split(rest, sep))[1..] == Split(rest, sep);
      assert [word[0]] + word[1..] == word;
    }
  }

  lemma {:induction false} SplitWord(word: string, sep: char)
    requires sep !in word
    ensures Split(word, sep) == [word]
  {
    if word != [] {
      assert word[0] in word && [word[0]] + word[1..] == word;
      SplitWord(word[1..], sep);
    }
  }

  // A leading modifier sets its flag and leaves the rest to be parsed.
  lemma ParseFlag(on: bool, name: string, rest: string, dash: bool, pf: Platform, d: Draft)
    requires '-' !in name && SetByName(name, pf, d).Some?
    ensures ParseFrom(Split(Flag(on, name) + rest, '-'), dash, pf, d)
         == ParseFrom(Split(rest, '-'), dash, pf, if on then SetByName(name, pf, d).value else d)
  {
    if on {
      SplitAfterWord(name, rest, '-');
      assert ([name] + Split(rest, '-'))[1..] == Split(rest, '-');
      assert name + ['-'] == name + "-";
    } else {
      assert "" + rest == rest;
    }
  }

  lemma ParseKey(key: string, dash: bool, pf: Platform, d: Draft)
    requires PlainNames(pf.specialKeys) && Printable(pf, key) && (key == "-" ==> dash)
    ensures ParseFrom(Split(KeyText(key), '-'), dash, pf, d) == Finish(d.(key := Some(key)))
  {
    if key == "-" {
      assert Split("-"[1..], '-') == [[]];
      assert Split("-", '-') == [[], []];
    } else {
      SplitWord(KeyText(key), '-');
    }
  }

  /** A keystroke with a printable key parses back from its normalized text, which is one
      non-empty word and never the text for a removed binding. */
  lemma NormalizedParsesBack(k: Keystroke, pf: Platform)
    requires PlainNames(pf.specialKeys) && Printable(pf, k.key)
    ensures Parse(Normalized(k), pf) == Ok(k)
    ensures Normalized(k) != [] && NoWhitespace(Normalized(k)) && Normalized(k) != REMOVED_KEYBINDING_SERIALIZATION
  {
    NormalizedIsOneWord(pf, k);
    var text := Normalized(k);
    var dash := text[|text| - 1] == '-';
    var tail := Flag(k.cmd, "cmd") + (Flag(k.meta, "meta") + KeyText(k.key));
    ParseHead(k.ctrl, k.alt, k.shift, tail, dash, pf);
    ParseTail(k.cmd, k.meta, k.key, dash, pf, Blank.(ctrl := k.ctrl, alt := k.alt, shift := k.shift));
  }

  lemma ParseHead(ctrl: bool, alt: bool, shift: bool, rest: string, dash: bool, pf: Platform)
    ensures var text := Flag(ctrl, "ctrl") + (Flag(alt, "alt") + (Flag(shift, "shift") + rest));
            ParseFrom(Split(text, '-'), dash, pf, Blank) ==
            ParseFrom(Split(rest, '-'), dash, pf, Blank.(ctrl := ctrl, alt := alt, shift := shift))
  {
    var t1 := Flag(shift, "shift") + rest;
    var d1 := Blank.(ctrl := ctrl);
    ParseFlag(ctrl, "ctrl", Flag(alt, "alt") + t1, dash, pf, Blank);
    ParseFlag(alt, "alt", t1, dash, pf, d1);
    ParseFlag(shift, "shift", rest, dash, pf, d1.(alt := alt));
  }

  lemma ParseTail(cmd: bool, meta: bool, key: string, dash: bool, pf: Platform, d: Draft)
    requires PlainNames(pf.specialKeys) && Printable(pf, key) && (key == "-" ==> dash) && !d.cmd && !d.meta
    ensures var text := Flag(cmd, "cmd") + (Flag(meta, "meta") + KeyText(key));
            ParseFrom(Split(text, '-'), dash, pf, d) == Finish(d.(cmd := cmd, meta := meta, key := Some(key)))
  {
    var d' := d.(cmd := cmd);
    ParseFlag(cmd, "cmd", Flag(meta, "meta") + KeyText(key), dash, pf, d);
    ParseFlag(meta, "meta", KeyText(key), dash, pf, d');
    ParseKey(key, dash, pf, d'.(meta := meta));
  }

  /** `cmdorctrl` stands for the command key on a Mac and for the control key elsewhere. */
  lemma CmdOrCtrlFollowsThePlatform(key: string, pf: Platform)
    requires PlainNames(pf.specialKeys) && Printable(pf, key)
    ensures Parse("cmdorctrl-" + KeyText(key), pf) == Ok(Keystroke(!pf.isMac, false, false, pf.isMac, false, key))
  {
    KeyTextIsOneWord(pf, key);
    var source := "cmdorctrl-" + KeyText(key);
    var dash := source[|source| - 1] == '-';
    assert source == Flag(true, "cmdorctrl") + KeyText(key);
    ParseFlag(true, "cmdorctrl", KeyText(key), dash, pf, Blank);
    ParseKey(key, dash, pf, if pf.isMac then Blank.(cmd := true) else Blank.(ctrl := true));
  }

  lemma KeyTextIsOneWord(pf: Platform, key: string)
    requires PlainNames(pf.specialKeys) && Printable(pf, key)
    ensures var text := KeyText(key); text != [] && NoWhitespace(text) && text != REMOVED_KEYBINDING_SERIALIZATION
  {
  }

  lemma NormalizedIsOneWord(pf: Platform, k: Keystroke)
    requires PlainNames(pf.specialKeys) && Printable(pf, k.key)
    ensures var text := Normalized(k);
            && text != [] && NoWhitespace(text) && text != REMOVED_KEYBINDING_SERIALIZATION
            && text[|text| - 1] == KeyText(k.key)[|KeyText(k.key)| - 1]
  {
    KeyTextIsOneWord(pf, k.key);
    var t1 := PrefixFlag(k.meta, "meta", KeyText(k.key));
    var t2 := PrefixFlag(k.cmd, "cmd", t1);
    var t3 := PrefixFlag(k.shift, "shift", t2);
    var t4 := PrefixFlag(k.alt, "alt", t3);
    var t5 := PrefixFlag(k.ctrl, "ctrl", t4);
  }

  lemma PrefixFlag(on: bool, name: string, rest: string) returns (text: string)
    requires name in {"ctrl", "alt", "shift", "cmd", "meta"}
    requires NoWhitespace(rest) && rest != [] && rest != "none"
    ensures text == Flag(on, name) + rest
    ensures NoWhitespace(text) && text != [] && text != "none" && text[|text| - 1] == rest[|rest| - 1]
  {
    text := Flag(on, name) + rest;
    if on { assert text[|name|] == '-' && '-' in text; }
  }

  lemma {:induction false} PartsKeepCharacters(s: string, sep: char)
    ensures forall part :: part in Split(s, sep) ==> forall c :: c in part ==> c in s
  {
    if s != [] {
      PartsKeepCharacters(s[1..], sep);
      var rest := Split(s[1..], sep);
      forall part | part in Split(s, sep) ensures forall c :: c in part ==> c in s {
        assert part == [] || part == [s[0]] + rest[0] || part in rest;
        assert rest[0] in rest;
      }
    }
  }

  lemma ValidKeyIsPrintable(pf: Platform, part: string)
    requires pf.IsValidKey(part) && NoWhitespace(part)
    ensures Printable(pf, part)
  {
    if |part| == 1 { assert part[0] in part; }
  }

  // A key that parsing finds is printable, given that no part holds whitespace.
  lemma {:induction false} FoundKeyIsPrintable(parts: seq<string>, dash: bool, pf: Platform, d: Draft)
    requires forall part :: part in parts ==> NoWhitespace(part)
    requires d.key.Some? ==> Printable(pf, d.key.value)
    ensures var r := ParseFrom(parts, dash, pf, d); r.Ok? ==> Printable(pf, r.value.key)
    decreases |parts|
  {
    if parts != [] {
      var part, rest := parts[0], parts[1..];
      assert NoWhitespace(part);
      var named := SetByName(part, pf, d);
      if named.Some? {
        FoundKeyIsPrintable(rest, dash, pf, named.value);
      } else if pf.IsValidKey(part) {
        ValidKeyIsPrintable(pf, part);
      }
    }
  }

  // ----- words -----

  lemma {:induction false} FirstWord(word: string, rest: string)
    requires NoWhitespace(word) && (rest != [] ==> IsWhitespace(rest[0]))
    ensures WordLength(word + rest) == |word|
  {
    if word != [] {
      assert (word + rest)[1..] == word[1..] + rest && word[0] in word;
      FirstWord(word[1..], rest);
    }
  }

  lemma {:induction false} SplitOfJoin(words: seq<string>)
    requires forall word :: word in words ==> word != [] && NoWhitespace(word)
    ensures SplitWhitespace(Join(words)) == words
  {
    if words != [] {
      var word := words[0];
      assert word in words && word[0] in word;
      assert forall w :: w in words[1..] ==> w in words;
      if |words| == 1 {
        FirstWord(word, []);
        assert word + [] == word && word[|word|..] == [] && words == [word];
      } else {
        SplitOfJoin(words[1..]);
        SplitTwo(word, Join(words[1..]));
      }
    }
  }

  lemma SplitTwo(word: string, rest: string)
    requires word != [] && NoWhitespace(word)
    ensures SplitWhitespace(word + " " + rest) == [word] + SplitWhitespace(rest)
  {
    var s := word + " " + rest;
    assert s == word + (" " + rest) && word[0] in word;
    FirstWord(word, " " + rest);
    assert s[..|word|] == word && s[|word|..] == " " + rest && (" " + rest)[1..] == rest;
  }

  lemma {:induction false} WordsHaveNoWhitespace(s: string)
    ensures forall word :: word in SplitWhitespace(s) ==> word != [] && NoWhitespace(word)
    decreases |s|
  {
    if s != [] {
      if IsWhitespace(s[0]) {
        WordsHaveNoWhitespace(s[1..]);
      } else {
        WordsHaveNoWhitespace(s[WordLength(s)..]);
        WordIsClean(s);
      }
    }
  }

  lemma {:induction false} WordIsClean(s: string)
    ensures forall i :: 0 <= i < WordLength(s) ==> !IsWhitespace(s[i])
  {
    if s != [] && !IsWhitespace(s[0]) {
      WordIsClean(s[1..]);
      assert forall i :: 1 <= i < WordLength(s) ==> s[i] == s[1..][i - 1];
    }
  }

  lemma {:induction false} ParseAllPointwise(words: seq<string>, pf: Platform)
    ensures ParseAll(words, pf).Ok? <==> forall word :: word in words ==> Parse(word, pf).Ok?
    ensures ParseAll(words, pf).Ok? ==>
              && |ParseAll(words, pf).value| == |words|
              && forall i :: 0 <= i < |words| ==> Parse(words[i], pf) == Ok(ParseAll(words, pf).value[i])
  {
    if words != [] {
      ParseAllPointwise(words[..|words| - 1], pf);
      assert words == words[..|words| - 1] + [words[|words| - 1]];
    }
  }

  // ----- the binding's round trip -----

  predicate AllPrintable(pf: Platform, binding: Keybinding) {
    binding.Keystrokes? ==> forall k :: k in binding.keystrokes ==> Printable(pf, k.key)
  }

  // Whatever parses has printable keys only.
  lemma ParsedIsPrintable(text: string, pf: Platform)
    requires ParseTrigger(text, pf).Ok?
    ensures AllPrintable(pf, ParseTrigger(text, pf).value)
    ensures ParseTrigger(text, pf).value != Keystrokes([])
  {
    var binding := ParseTrigger(text, pf).value;
    if binding.Keystrokes? {
      var words := SplitWhitespace(text);
      ParseAllPointwise(words, pf);
      WordsHaveNoWhitespace(text);
      forall k | k in binding.keystrokes ensures Printable(pf, k.key) {
        var i :| 0 <= i < |words| && binding.keystrokes[i] == k;
        assert words[i] in words;
        PartsKeepCharacters(words[i], '-');
        FoundKeyIsPrintable(Split(words[i], '-'), words[i] != [] && words[i][|words[i]| - 1] == '-', pf, Blank);
      }
    }
  }

  /** With any table of special key names that are plain words (not a modifier's name, `space` or
      `none`), printing a binding and parsing the text gives the binding back exactly when each of
      its keys is the space bar, one character other than whitespace, or a name in the table. */
  lemma RoundTripIff(binding: Keybinding, pf: Platform)
    requires PlainNames(pf.specialKeys) && binding != Keystrokes([])
    ensures ParseTrigger(Print(binding), pf) == Ok(binding) <==> AllPrintable(pf, binding)
  {
    if ParseTrigger(Print(binding), pf) == Ok(binding) { ParsedIsPrintable(Print(binding), pf); }
    if AllPrintable(pf, binding) && binding.Keystrokes? {
      var ks, words := binding.keystrokes, NormalizedAll(binding.keystrokes);
      PrintedWordsParse(ks, pf);
      SplitOfJoin(words);
      assert Print(binding) != REMOVED_KEYBINDING_SERIALIZATION by { NoneIsOneWord(); assert words[0] in words; }
    }
  }

  /** Printing a binding and parsing the text gives the binding back exactly when each of its keys
      is the space bar, one character other than whitespace, or a named key. */
  lemma {:induction false} PrintThenParseIff(binding: Keybinding, isMac: bool)
    requires binding != Keystrokes([])
    ensures ParseTrigger(Print(binding), Desktop(isMac)) == Ok(binding) <==> AllPrintable(Desktop(isMac), binding)
  {
    SpecialKeysArePlain();
    RoundTripIff(binding, Desktop(isMac));
  }

  lemma PrintedWordsParse(ks: seq<Keystroke>, pf: Platform)
    requires PlainNames(pf.specialKeys) && forall k :: k in ks ==> Printable(pf, k.key)
    ensures forall word :: word in NormalizedAll(ks) ==> word != [] && NoWhitespace(word) && word != "none"
    ensures ParseAll(NormalizedAll(ks), pf) == Ok(ks)
  {
    var words := NormalizedAll(ks);
    forall i | 0 <= i < |ks|
      ensures words[i] != [] && NoWhitespace(words[i]) && words[i] != "none" && Parse(words[i], pf) == Ok(ks[i])
    {
      assert ks[i] in ks;
      NormalizedParsesBack(ks[i], pf);
    }
    ParseAllPointwise(words, pf);
    assert ParseAll(words, pf).value == ks;
  }

  lemma NoneIsOneWord()
    ensures SplitWhitespace("none") == ["none"]
  {
    FirstWord("none", []);
    assert "none" + [] == "none" && "none"[|"none"|..] == [];
  }

  /** Whatever text parses, printing the result and parsing again changes nothing more; and text
      made of whitespace alone never parses. */
  lemma {:induction false} ParsedTextIsAFixedPoint(text: string, isMac: bool)
    ensures var r := ParseTrigger(text, Desktop(isMac));
            && (r.Ok? ==> ParseTrigger(Print(r.value), Desktop(isMac)) == r)
            && ((forall c :: c in text ==> IsWhitespace(c)) ==> r.Err?)
  {
    var pf := Desktop(isMac);
    if ParseTrigger(text, pf).Ok? {
      ParsedIsPrintable(text, pf);
      PrintThenParseIff(ParseTrigger(text, pf).value, isMac);
    }
    if forall c :: c in text ==> IsWhitespace(c) {
      BlankHasNoWords(text);
      assert text != REMOVED_KEYBINDING_SERIALIZATION by { assert 'n' in REMOVED_KEYBINDING_SERIALIZATION; }
    }
  }

  lemma {:induction false} BlankHasNoWords(s: string)
    requires forall c :: c in s ==> IsWhitespace(c)
    ensures SplitWhitespace(s) == []
  {
    if s != [] {
      assert s[0] in s;
      BlankHasNoWords(s[1..]);
    }
  }
}
