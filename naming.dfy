/** `createFileName`: the Java class name derived from the project name. */
module Naming {
  import opened Strings

  const Suffix := "AdvancedAnimations"

  /** The first pass of `createFileName` over `s`, seen as if a character before `s` had been an
      underscore exactly when `afterSeparator` holds: a character is upper-cased when it comes
      first or right after an underscore, and copied otherwise. */
  function CapitalizedFrom(s: string, afterSeparator: bool): string {
    seq(|s|, i requires 0 <= i < |s| =>
      if (i == 0 && afterSeparator) || (i > 0 && s[i - 1] == '_') then UpperChar(s[i]) else s[i])
  }

  /** The text the loop of `createFileName` builds before the underscores are removed. */
  function Capitalized(s: string): string {
    CapitalizedFrom(s, true)
  }

  /** What `createFileName` returns for the project name `value`. */
  function FileName(value: string): string {
    ReplaceAll(Capitalized(value), "_", "") + Suffix
  }

  /** `createFileName`. The loop looks back at the text it has written (`text.charAt(i - 1)`),
      not at the input; upper-casing never makes or removes an underscore, so the two agree. */
  method CreateFileName(value: string) returns (text: string)
    ensures text == FileName(value)
  {
    text := "";
    for i := 0 to |value|
      invariant text == Capitalized(value)[..i]
    {
      if i == 0 || text[i - 1] == '_' {
        text := text + [UpperChar(value[i])];
      } else {
        text := text + [value[i]];
      }
    }
    assert text == Capitalized(value);
    text := ReplaceAll(text, "_", "");
    text := text + Suffix;
  }

  /** Upper-casing keeps underscores where they are, so both strings have as many. */
  lemma {:induction false} SameUnderscores(a: string, b: string)
    requires |a| == |b|
    requires forall i :: 0 <= i < |a| ==> (a[i] == '_' <==> b[i] == '_')
    ensures multiset(a)['_'] == multiset(b)['_']
    decreases |a|
  {
    if a != [] {
      assert a == [a[0]] + a[1..] && b == [b[0]] + b[1..];
      assert multiset(a) == multiset{a[0]} + multiset(a[1..]);
      assert multiset(b) == multiset{b[0]} + multiset(b[1..]);
      SameUnderscores(a[1..], b[1..]);
    }
  }

  /** The generated name ends with `AdvancedAnimations`, has no underscore before it, and is
      as long as the project name less its underscores, plus the 18 characters of the suffix. */
  lemma FileNameShape(value: string)
    ensures |FileName(value)| >= |Suffix|
    ensures FileName(value)[|FileName(value)| - |Suffix|..] == Suffix
    ensures '_' !in FileName(value)[..|FileName(value)| - |Suffix|]
    ensures |FileName(value)| == |value| - multiset(value)['_'] + 18
  {
    var c := Capitalized(value);
    ReplaceAllDeletesChar(c, '_');
    SameUnderscores(c, value);
    var body := ReplaceAll(c, "_", "");
    assert FileName(value)[..|FileName(value)| - |Suffix|] == body;
  }

  /** An independent statement of the naming rule, in one pass over the input: underscores
      are dropped, and the first character of the name and of every part after an underscore
      is upper-cased. */
  function PascalCase(s: string, atWordStart: bool): string
    decreases |s|
  {
    if s == [] then []
    else if s[0] == '_' then PascalCase(s[1..], true)
    else [if atWordStart then UpperChar(s[0]) else s[0]] + PascalCase(s[1..], false)
  }

  /** The two passes of `createFileName` compute the one-pass rule. */
  lemma {:induction false} CapitalizedThenStripped(s: string, atWordStart: bool)
    ensures ReplaceAll(CapitalizedFrom(s, atWordStart), "_", "") == PascalCase(s, atWordStart)
    decreases |s|
  {
    if s != [] {
      var c := CapitalizedFrom(s, atWordStart);
      assert c[1..] == CapitalizedFrom(s[1..], s[0] == '_');
      assert c[..1] == [c[0]];
      CapitalizedThenStripped(s[1..], s[0] == '_');
    }
  }

  /** `createFileName` is the one-pass rule followed by the suffix. */
  lemma FileNameIsPascalCase(value: string)
    ensures FileName(value) == PascalCase(value, true) + Suffix
  {
    CapitalizedThenStripped(value, true);
  }

  /** A name with no underscore that does not start with a lower-case letter is kept as it
      is, and only the suffix is added. */
  lemma FileNameOfPlainName(value: string)
    requires '_' !in value
    requires value == [] || !IsLower(value[0])
    ensures FileName(value) == value + Suffix
  {
    assert Capitalized(value) == value;
    forall i | 0 <= i <= |value| && IsInfixAt("_", value, i) ensures false {
      InfixAtChar("_", value, i, 0);
    }
    ReplaceAllWithoutMatch(value, "_", "");
  }

  /** The empty project name gives the bare suffix. */
  lemma FileNameOfEmpty()
    ensures FileName("") == "AdvancedAnimations"
  {
    FileNameIsPascalCase("");
  }

  /** `my_mod` gives `MyMod` followed by the suffix. */
  lemma FileNameOfMyMod(value: string)
    requires value == "my_mod"
    ensures FileName(value) == "MyMod" + Suffix
  {
    FileNameIsPascalCase(value);
    assert PascalCase(value[5..], false) == "d" by { assert value[5..][1..] == []; }
    assert PascalCase(value[4..], false) == "od" by { assert value[4..][1..] == value[5..]; }
    assert PascalCase(value[3..], true) == "Mod" by { assert value[3..][1..] == value[4..]; }
    assert PascalCase(value[2..], false) == "Mod" by { assert value[2..][1..] == value[3..]; }
    assert PascalCase(value[1..], false) == "yMod" by { assert value[1..][1..] == value[2..]; }
  }
}
