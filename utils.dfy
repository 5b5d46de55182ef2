/** The pure helpers of `static/js/modules/utils.js`: Russian plural forms
    and relative times, regular-expression escaping, truncation, the
    emptiness test, file types, and kebab- and camel-casing. */
module Utils {
  import opened Common

  // ---------------------------------------------------------------------
  // Plural forms
  // ---------------------------------------------------------------------

  /** The unit words of `formatRelativeTime`, largest first, and their
      lengths in seconds. */
  const Units: seq<string> := ["год", "месяц", "неделя", "день", "час", "минута", "секунда"]
  const UnitSeconds: seq<int> := [31536000, 2592000, 604800, 86400, 3600, 60, 1]

  /** The forms of each unit word, in the table's order: for 2-4, for 5 and
      more, for 1. */
  const Forms: seq<seq<string>> := [
    ["года", "лет", "год"],
    ["месяца", "месяцев", "месяц"],
    ["недели", "недель", "неделя"],
    ["дня", "дней", "день"],
    ["часа", "часов", "час"],
    ["минуты", "минут", "минута"],
    ["секунды", "секунд", "секунда"]
  ]

  /** `variants[word]`. */
  function Variants(word: string): (r: Option<seq<string>>)
    ensures r.Some? ==> |r.value| == 3
  {
    if word == "год" then Some(Forms[0])
    else if word == "месяц" then Some(Forms[1])
    else if word == "неделя" then Some(Forms[2])
    else if word == "день" then Some(Forms[3])
    else if word == "час" then Some(Forms[4])
    else if word == "минута" then Some(Forms[5])
    else if word == "секунда" then Some(Forms[6])
    else None
  }

  /** The index `declension` picks, as written: 1 for 5..19 modulo 100,
      else `[2, 0, 1, 1, 1, 2][min(n % 10, 5)]`. */
  function FormIndexAsWritten(n: nat): (i: nat)
    ensures i < 3
  {
    if n % 100 > 4 && n % 100 < 20 then 1 else [2, 0, 1, 1, 1, 2][if n % 10 < 5 then n % 10 else 5]
  }

  /** The index of the form Russian grammar asks for, in the table's order
      (for 2-4, for 5 and more, for 1). */
  function FormIndex(n: nat): (i: nat)
    ensures i < 3
  {
    if n % 10 == 1 && n % 100 != 11 then 2
    else if 2 <= n % 10 <= 4 && !(12 <= n % 100 <= 14) then 0
    else 1
  }

  /** `declension` as written: an unknown word comes back unchanged. */
  function Declension(n: nat, word: string): string
  {
    match Variants(word)
    case None => word
    case Some(forms) => forms[FormIndexAsWritten(n)]
  }

  /** `declension` as intended. */
  function DeclensionIntended(n: nat, word: string): string
  {
    match Variants(word)
    case None => word
    case Some(forms) => forms[FormIndex(n)]
  }

  /** The written index table agrees with the grammar exactly on 5..19
      modulo 100 and picks a wrong form for every other number. */
  lemma {:induction false} FormIndexAsWrittenWrong(n: nat)
    ensures FormIndexAsWritten(n) == FormIndex(n) <==> 5 <= n % 100 <= 19
  {
    LastTwoDigits(n);
    TableBelowHundred(n % 100);
  }

  /** Both indices depend only on the last two digits. */
  lemma {:induction false} LastTwoDigits(n: nat)
    ensures FormIndexAsWritten(n) == FormIndexAsWritten(n % 100)
    ensures FormIndex(n) == FormIndex(n % 100)
  {
    assert n % 100 % 10 == n % 10;
    assert n % 100 % 100 == n % 100;
  }

  lemma {:induction false} TableBelowHundred(h: nat)
    requires h < 100
    ensures FormIndexAsWritten(h) == FormIndex(h) <==> 5 <= h <= 19
  {
  }

  /** For example one day comes out as "1 дня" instead of "1 день". */
  lemma {:induction false} DeclensionAsWrittenExample()
    ensures Declension(1, "день") == "дня"
    ensures DeclensionIntended(1, "день") == "день"
  {
  }

  /** The corrected declension gives the dictionary form after 1, 21, 31,
      ... (not 11), the 2-4 form after 2-4, 22-24, ... (not 12-14), the
      form for many otherwise, and leaves unknown words alone. */
  lemma {:induction false} DeclensionIntendedSpec(n: nat, i: nat)
    requires i < 7
    ensures n % 10 == 1 && n % 100 != 11 ==> DeclensionIntended(n, Units[i]) == Units[i]
    ensures 2 <= n % 10 <= 4 && !(12 <= n % 100 <= 14) ==> DeclensionIntended(n, Units[i]) == Forms[i][0]
    ensures !(n % 10 == 1 && n % 100 != 11) && !(2 <= n % 10 <= 4 && !(12 <= n % 100 <= 14)) ==>
      DeclensionIntended(n, Units[i]) == Forms[i][1]
  {
    UnitVariants(i);
  }

  /** Each unit word finds its own row of forms. */
  lemma {:induction false} UnitVariants(i: nat)
    requires i < 7
    ensures Variants(Units[i]) == Some(Forms[i])
  {
    if i == 1 {
      assert Units[1] != "год" by { assert |Units[1]| != 3; }
    } else if i == 2 {
      assert Units[2] != "год" && Units[2] != "месяц" by { assert |Units[2]| == 6; }
    } else if i == 3 {
      assert Units[3] != "год" && Units[3] != "месяц" && Units[3] != "неделя" by { assert |Units[3]| == 4; }
    } else if i == 4 {
      assert Units[4] != "месяц" && Units[4] != "неделя" && Units[4] != "день" by { assert |Units[4]| == 3; }
      assert Units[4] != "год" by { assert Units[4][0] != "год"[0]; }
    } else if i == 5 {
      assert Units[5] != "год" && Units[5] != "месяц" && Units[5] != "день" && Units[5] != "час" by {
        assert |Units[5]| == 6;
      }
      assert Units[5] != "неделя" by { assert Units[5][0] != "неделя"[0]; }
    } else if i == 6 {
      assert |Units[6]| == 7;
    }
  }

  /** An unknown word is returned unchanged. */
  lemma {:induction false} DeclensionUnknownWord(n: nat, word: string)
    requires forall i :: 0 <= i < 7 ==> word != Units[i]
    ensures Declension(n, word) == word && DeclensionIntended(n, word) == word
  {
    assert word != Units[0] && word != Units[1] && word != Units[2] && word != Units[3];
    assert word != Units[4] && word != Units[5] && word != Units[6];
  }

  // ---------------------------------------------------------------------
  // Relative time
  // ---------------------------------------------------------------------

  /** The first unit from `i` on that fits at least once into `d` seconds,
      or 7 when none does. */
  function FirstUnitFrom(d: int, i: nat): (r: nat)
    requires i <= 7
    ensures i <= r <= 7
    ensures r < 7 ==> d / UnitSeconds[r] >= 1
    ensures forall j :: i <= j < r ==> d / UnitSeconds[j] < 1
    decreases 7 - i
  {
    if i == 7 then 7
    else if d / UnitSeconds[i] >= 1 then i
    else FirstUnitFrom(d, i + 1)
  }

  /** `formatRelativeTime` for a date (`None` for one `new Date` cannot
      parse, which makes every comparison with NaN fail) and the current
      time, both in milliseconds. */
  function RelativeTime(date: Option<int>, now: int): string
  {
    if date.None? then "только что"
    else
      var d := (now - date.value) / 1000;
      var i := FirstUnitFrom(d, 0);
      if i == 7 then "только что"
      else
        var n := d / UnitSeconds[i];
        Phrase(n, Units[i])
  }

  /** "`n` `word` назад", with the word in the form `declension` picks. */
  function Phrase(n: nat, word: string): (r: string)
    ensures r != [] && IsDigit(r[0])
    ensures StartsWith(r, NatToString(n) + " ") && DecimalValue(r[..|NatToString(n)|]) == n
    ensures |r| >= 6 && r[|r| - 6..] == " назад"
  {
    DecimalRoundTrip(n);
    var digits := NatToString(n);
    var w := digits + " " + Declension(n, word);
    var r := w + " назад";
    assert r[..|digits|] == digits && r[..|digits| + 1] == digits + " ";
    assert r[|w|..] == " назад";
    r
  }

  /** "только что" comes exactly for an unparsable date or a difference
      under one second (a future date included). */
  lemma {:induction false} RelativeTimeJustNow(date: Option<int>, now: int)
    ensures RelativeTime(date, now) == "только что" <==> date.None? || now - date.value < 1000
  {
    if date.Some? {
      var d := (now - date.value) / 1000;
      if d >= 1 {
        assert d / UnitSeconds[6] >= 1;
        var i := FirstUnitFrom(d, 0);
        assert i < 7;
        var r := RelativeTime(date, now);
        assert IsDigit(r[0]);
        assert !IsDigit("только что"[0]);
      }
    }
  }

  /** Otherwise the phrase counts the whole units of the first (largest)
      unit that fits into the difference in seconds; `FirstUnitBounds`
      says what that count is. */
  lemma {:induction false} RelativeTimeUnit(date: Option<int>, now: int, i: nat)
    requires date.Some? && now - date.value >= 1000
    requires i == FirstUnitFrom((now - date.value) / 1000, 0)
    ensures i < 7 && RelativeTime(date, now) == Phrase((now - date.value) / 1000 / UnitSeconds[i], Units[i])
  {
    FirstUnitBounds((now - date.value) / 1000);
    RelativeTimeAt(date, now, i);
  }

  /** Once a unit fits, the phrase counts that unit. */
  lemma {:induction false} RelativeTimeAt(date: Option<int>, now: int, i: nat)
    requires date.Some? && i < 7 && i == FirstUnitFrom((now - date.value) / 1000, 0)
    ensures RelativeTime(date, now) == Phrase((now - date.value) / 1000 / UnitSeconds[i], Units[i])
  {
  }

  /** For at least one second some unit fits; the count of the first one
      that does brackets the seconds, and every larger unit is too long. */
  lemma {:induction false} FirstUnitBounds(d: int)
    requires d >= 1
    ensures var i := FirstUnitFrom(d, 0);
      var n := d / UnitSeconds[i];
      && i < 7 && n >= 1
      && n * UnitSeconds[i] <= d < (n + 1) * UnitSeconds[i]
      && (forall j :: 0 <= j < i ==> d < UnitSeconds[j])
  {
    assert d / UnitSeconds[6] >= 1;
    var i := FirstUnitFrom(d, 0);
    DivBounds(d, UnitSeconds[i]);
    forall j | 0 <= j < i
      ensures d < UnitSeconds[j]
    {
      DivBelowOne(d, UnitSeconds[j]);
    }
  }

  /** A non-negative dividend whose quotient is zero is below the divisor. */
  lemma {:induction false} DivBelowOne(d: int, u: int)
    requires u > 0 && d >= 0 && d / u < 1
    ensures d < u
  {
    DivBounds(d, u);
  }

  /** Floor division brackets the dividend. */
  lemma {:induction false} DivBounds(d: int, u: int)
    requires u > 0
    ensures (d / u) * u <= d < (d / u + 1) * u
  {
  }

  /** The loop of `formatRelativeTime` over the units. */
  method FormatRelativeTime(date: Option<int>, now: int) returns (r: string)
    ensures r == RelativeTime(date, now)
  {
    var diffInSeconds := if date.Some? then (now - date.value) / 1000 else 0;
    for i := 0 to 7
      invariant date.Some? ==> forall j :: 0 <= j < i ==> diffInSeconds / UnitSeconds[j] < 1
    {
      var interval := if date.Some? then Some(diffInSeconds / UnitSeconds[i]) else None;
      if interval.Some? && interval.value >= 1 {
        assert FirstUnitFrom(diffInSeconds, 0) == i by {
          FirstUnitIs(diffInSeconds, 0, i);
        }
        return NatToString(interval.value) + " " + Declension(interval.value, Units[i]) + " назад";
      }
    }
    if date.Some? {
      FirstUnitIs(diffInSeconds, 0, 7);
    }
    return "только что";
  }

  /** The first fitting unit is the one before which none fits. */
  lemma {:induction false} FirstUnitIs(d: int, i: nat, r: nat)
    requires i <= r <= 7
    requires r < 7 ==> d / UnitSeconds[r] >= 1
    requires forall j :: i <= j < r ==> d / UnitSeconds[j] < 1
    ensures FirstUnitFrom(d, i) == r
    decreases 7 - i
  {
    if i < r {
      FirstUnitIs(d, i + 1, r);
    }
  }

  // ---------------------------------------------------------------------
  // Escaping for regular expressions
  // ---------------------------------------------------------------------

  /** The characters of the class `[.*+?^${}()|[\]\\]`. */
  predicate IsRegExpSpecial(c: char)
  {
    c == '.' || c == '*' || c == '+' || c == '?' || c == '^' || c == '$' || c == '{' || c == '}'
    || c == '(' || c == ')' || c == '|' || c == '[' || c == ']' || c == '\\'
  }

  /** `escapeRegExp`: a backslash before every special character. */
  function EscapeRegExp(s: string): string
  {
    if s == [] then []
    else (if IsRegExpSpecial(s[0]) then ['\\', s[0]] else [s[0]]) + EscapeRegExp(s[1..])
  }

  /** Reading an escaped text back: a backslash stands for the character
      after it. */
  function Unescape(t: string): string
  {
    if t == [] then []
    else if t[0] == '\\' && |t| >= 2 then [t[1]] + Unescape(t[2..])
    else [t[0]] + Unescape(t[1..])
  }

  function CountSpecial(s: string): nat
  {
    if s == [] then 0 else (if IsRegExpSpecial(s[0]) then 1 else 0) + CountSpecial(s[1..])
  }

  /** Escaping works character by character: a text's escape is the
      escapes of its pieces, put together. */
  lemma {:induction false} EscapeRegExpConcat(a: string, b: string)
    ensures EscapeRegExp(a + b) == EscapeRegExp(a) + EscapeRegExp(b)
  {
    if a != [] {
      EscapeRegExpConcat(a[1..], b);
      var c := a[0];
      var e := if IsRegExpSpecial(c) then ['\\', c] else [c];
      assert (a + b)[0] == c && (a + b)[1..] == a[1..] + b;
      calc {
        EscapeRegExp(a + b);
        e + EscapeRegExp(a[1..] + b);
        e + (EscapeRegExp(a[1..]) + EscapeRegExp(b));
        (e + EscapeRegExp(a[1..])) + EscapeRegExp(b);
        EscapeRegExp(a) + EscapeRegExp(b);
      }
    } else {
      assert a + b == b;
    }
  }

  /** A single special character gets one backslash before it, any other
      is kept. */
  lemma {:induction false} EscapeRegExpChar(c: char)
    ensures EscapeRegExp([c]) == if IsRegExpSpecial(c) then ['\\', c] else [c]
  {
    assert [c][1..] == [];
  }

  /** Escaping loses nothing, changes no other character, and adds exactly
      one character per special one. */
  lemma {:induction false} EscapeRegExpSpec(s: string)
    ensures Unescape(EscapeRegExp(s)) == s
    ensures |EscapeRegExp(s)| == |s| + CountSpecial(s)
    ensures (forall k :: 0 <= k < |s| ==> !IsRegExpSpecial(s[k])) ==> EscapeRegExp(s) == s
  {
    if s != [] {
      EscapeRegExpSpec(s[1..]);
      var rest := EscapeRegExp(s[1..]);
      if IsRegExpSpecial(s[0]) {
        assert (['\\', s[0]] + rest)[2..] == rest;
      } else {
        assert ([s[0]] + rest)[1..] == rest;
      }
      assert s == [s[0]] + s[1..];
    }
  }

  // ---------------------------------------------------------------------
  // Truncation and emptiness
  // ---------------------------------------------------------------------

  /** `truncateText` (the defaults are 100 and "..."): `substring` clamps a
      negative length to 0. */
  function TruncateText(text: string, maxLength: int, ellipsis: string): string
  {
    if |text| <= maxLength then text
    else text[..if maxLength < 0 then 0 else maxLength] + ellipsis
  }

  /** A short text is kept; a long one keeps its first `maxLength`
      characters (none for a negative length) followed by the ellipsis. */
  lemma {:induction false} TruncateTextSpec(text: string, maxLength: int, ellipsis: string)
    ensures |text| <= maxLength ==> TruncateText(text, maxLength, ellipsis) == text
    ensures |text| > maxLength ==>
      var m := if maxLength < 0 then 0 else maxLength;
      var r := TruncateText(text, maxLength, ellipsis);
      && |r| == m + |ellipsis|
      && StartsWith(text, r[..m])
      && r[m..] == ellipsis
    ensures |TruncateText(text, maxLength, ellipsis)| <= (if |text| <= maxLength then |text| else (if maxLength < 0 then 0 else maxLength) + |ellipsis|)
  {
  }

  /** A JavaScript value as `isEmpty` tells them apart; `Obj` is any
      non-array object with its own enumerable keys. */
  datatype JsValue =
    | Null
    | Undefined
    | Bool(b: bool)
    | Num(n: int)
    | Str(s: string)
    | Arr(elems: seq<JsValue>)
    | Obj(keys: seq<string>)
    | Func

  /** `isEmpty`. */
  predicate IsEmpty(v: JsValue)
  {
    if v.Null? || v.Undefined? then true
    else if v.Str? && JsTrim(v.s) == "" then true
    else if v.Arr? && |v.elems| == 0 then true
    else if v.Obj? && |v.keys| == 0 then true
    else false
  }

  /** Only null, undefined, blank strings, empty arrays and key-less
      objects are empty; `false`, `0` and functions are not. */
  lemma {:induction false} IsEmptySpec(v: JsValue)
    ensures v.Null? || v.Undefined? ==> IsEmpty(v)
    ensures v.Str? ==> (IsEmpty(v) <==> AllOf(v.s, IsJsSpace))
    ensures v.Bool? || v.Num? || v.Func? ==> !IsEmpty(v)
    ensures v.Arr? ==> (IsEmpty(v) <==> v.elems == [])
    ensures v.Obj? ==> (IsEmpty(v) <==> v.keys == [])
  {
    if v.Str? {
      StripEmptyIffBlank(v.s, IsJsSpace);
    }
  }

  // ---------------------------------------------------------------------
  // File types
  // ---------------------------------------------------------------------

  const TypeNames: seq<string> := ["image", "document", "archive", "audio", "video"]
  const TypeExtensions: seq<seq<string>> := [
    ["jpg", "jpeg", "png", "gif", "webp"],
    ["pdf", "doc", "docx", "xls", "xlsx", "ppt", "pptx"],
    ["zip", "rar", "7z", "tar", "gz"],
    ["mp3", "wav", "ogg", "aac"],
    ["mp4", "avi", "mov", "mkv", "webm"]
  ]

  /** The first table from `i` on that lists the extension, or 5. */
  function FirstTypeFrom(ext: string, i: nat): (r: nat)
    requires i <= 5
    ensures i <= r <= 5
    ensures r < 5 ==> ext in TypeExtensions[r]
    ensures forall j :: i <= j < r ==> ext !in TypeExtensions[j]
    decreases 5 - i
  {
    if i == 5 then 5
    else if ext in TypeExtensions[i] then i
    else FirstTypeFrom(ext, i + 1)
  }

  /** `getFileType`. */
  function FileType(filename: string): string
  {
    var i := FirstTypeFrom(Extension(filename), 0);
    if i == 5 then "other" else TypeNames[i]
  }

  /** The type is the first table listing the lower-cased extension, or
      "other" when none does; the letter case of the name does not
      matter. */
  lemma {:induction false} FileTypeSpec(filename: string)
    ensures var ext := Extension(filename);
      && (FileType(filename) == "other" <==> forall j :: 0 <= j < 5 ==> ext !in TypeExtensions[j])
      && (forall i :: 0 <= i < 5 && FileType(filename) == TypeNames[i] ==>
            ext in TypeExtensions[i] && forall j :: 0 <= j < i ==> ext !in TypeExtensions[j])
    ensures FileType(Lower(filename)) == FileType(filename)
  {
    ExtensionSpec(filename);
    TypeNamesDistinct();
  }

  /** The five type names differ from each other and from "other". */
  lemma {:induction false} TypeNamesDistinct()
    ensures forall k :: 0 <= k < 5 ==> TypeNames[k] != "other"
    ensures forall k, j :: 0 <= k < 5 && 0 <= j < 5 && k != j ==> TypeNames[k] != TypeNames[j]
  {
    forall k | 0 <= k < 5
      ensures TypeNames[k] != "other"
    {
      assert TypeNames[k][0] != 'o';
    }
    forall k, j | 0 <= k < 5 && 0 <= j < 5 && k != j
      ensures TypeNames[k] != TypeNames[j]
    {
      assert TypeNames[k][0] != TypeNames[j][0] || |TypeNames[k]| != |TypeNames[j]|;
    }
  }

  /** The loop of `getFileType` over the tables. */
  method GetFileType(filename: string) returns (r: string)
    ensures r == FileType(filename)
  {
    var extension := Extension(filename);
    for i := 0 to 5
      invariant forall j :: 0 <= j < i ==> extension !in TypeExtensions[j]
    {
      if extension in TypeExtensions[i] {
        FirstTypeIs(extension, 0, i);
        return TypeNames[i];
      }
    }
    FirstTypeIs(extension, 0, 5);
    return "other";
  }

  lemma {:induction false} FirstTypeIs(ext: string, i: nat, r: nat)
    requires i <= r <= 5
    requires r < 5 ==> ext in TypeExtensions[r]
    requires forall j :: i <= j < r ==> ext !in TypeExtensions[j]
    ensures FirstTypeFrom(ext, i) == r
    decreases 5 - i
  {
    if i < r {
      FirstTypeIs(ext, i + 1, r);
    }
  }

  // ---------------------------------------------------------------------
  // kebab-case and camelCase
  // ---------------------------------------------------------------------

  predicate IsAsciiLower(c: char) { 'a' <= c <= 'z' }
  predicate IsAsciiUpper(c: char) { 'A' <= c <= 'Z' }

  /** `[\s_]`. */
  predicate IsKebabSeparator(c: char) { IsJsSpace(c) || c == '_' }

  /** `[-_\s]`. */
  predicate IsCamelSeparator(c: char) { c == '-' || c == '_' || IsJsSpace(c) }

  /** `replace(/([a-z])([A-Z])/g, '$1-$2')`. */
  function HyphenateCase(s: string): string
  {
    if |s| < 2 then s
    else if IsAsciiLower(s[0]) && IsAsciiUpper(s[1]) then [s[0], '-', s[1]] + HyphenateCase(s[2..])
    else [s[0]] + HyphenateCase(s[1..])
  }

  /** The scan of a global `replace` of `[...]+` by `repl`: the first
      character of each maximal run of `sep` characters becomes `repl`,
      the rest of the run is dropped; `inRun` says the text continues a
      run already replaced. */
  function CollapseRunsFrom(s: string, sep: char -> bool, repl: char, inRun: bool): string
  {
    if s == [] then []
    else if sep(s[0]) then (if inRun then [] else [repl]) + CollapseRunsFrom(s[1..], sep, repl, true)
    else [s[0]] + CollapseRunsFrom(s[1..], sep, repl, false)
  }

  /** Replaces every maximal run of characters satisfying `sep` by the
      single character `repl`. */
  function CollapseRuns(s: string, sep: char -> bool, repl: char): string
  {
    CollapseRunsFrom(s, sep, repl, false)
  }

  /** `replace(/[\s_]+/g, '-')`. */
  function CollapseSeparators(s: string): string
  {
    CollapseRuns(s, IsKebabSeparator, '-')
  }

  /** `toKebabCase`. */
  function ToKebabCase(s: string): string
  {
    Lower(CollapseSeparators(HyphenateCase(s)))
  }

  /** The scan of `replace(/[-_\s]+(.)?/g, ...)`: separators are dropped,
      and `afterRun` says a run was just dropped, so the next character is
      upper-cased. */
  function CamelFrom(s: string, afterRun: bool): string
  {
    if s == [] then []
    else if IsCamelSeparator(s[0]) then CamelFrom(s[1..], true)
    else [if afterRun then UpperChar(s[0]) else s[0]] + CamelFrom(s[1..], false)
  }

  /** `toCamelCase`: every run of separators is dropped and the character
      after it upper-cased. */
  function ToCamelCase(s: string): string
  {
    CamelFrom(s, false)
  }

  lemma {:induction false} HyphenateCaseNoUpper(s: string)
    requires forall k :: 0 <= k < |s| ==> !IsAsciiUpper(s[k])
    ensures HyphenateCase(s) == s
  {
    if |s| >= 2 {
      HyphenateCaseNoUpper(s[1..]);
      assert s == [s[0]] + s[1..];
    }
  }

  /** When `repl` is not itself a separator, no separator survives. */
  lemma {:induction false} CollapseRunsClean(s: string, sep: char -> bool, repl: char, inRun: bool)
    requires !sep(repl)
    ensures forall k :: 0 <= k < |CollapseRunsFrom(s, sep, repl, inRun)| ==> !sep(CollapseRunsFrom(s, sep, repl, inRun)[k])
  {
    if s != [] {
      var rest := CollapseRunsFrom(s[1..], sep, repl, sep(s[0]));
      CollapseRunsClean(s[1..], sep, repl, sep(s[0]));
      var head := if sep(s[0]) then (if inRun then [] else [repl]) else [s[0]];
      var r := head + rest;
      assert CollapseRunsFrom(s, sep, repl, inRun) == r;
      forall k | 0 <= k < |r|
        ensures !sep(r[k])
      {
        if k >= |head| {
          assert r[k] == rest[k - |head|];
          assert !sep(rest[k - |head|]);
        } else if sep(s[0]) {
          assert head == [repl] && r[k] == repl;
        } else {
          assert head == [s[0]] && r[k] == s[0];
        }
      }
    }
  }

  /** A text without separators is left alone. */
  lemma {:induction false} CollapseRunsKeeps(s: string, sep: char -> bool, repl: char, inRun: bool)
    requires forall k :: 0 <= k < |s| ==> !sep(s[k])
    ensures CollapseRunsFrom(s, sep, repl, inRun) == s
  {
    if s != [] {
      CollapseRunsKeeps(s[1..], sep, repl, false);
      assert s == [s[0]] + s[1..];
    }
  }

  lemma {:induction false} CollapseSeparatorsClean(s: string)
    ensures forall k :: 0 <= k < |CollapseSeparators(s)| ==> !IsKebabSeparator(CollapseSeparators(s)[k])
  {
    assert !IsKebabSeparator('-');
    assert CollapseSeparators(s) == CollapseRunsFrom(s, IsKebabSeparator, '-', false);
    CollapseRunsClean(s, IsKebabSeparator, '-', false);
  }

  /** Lower-casing creates no separator and leaves no ASCII capital. */
  lemma {:induction false} LowerCharClean(c: char)
    ensures IsKebabSeparator(LowerChar(c)) ==> IsKebabSeparator(c)
    ensures !IsAsciiUpper(LowerChar(c))
  {
  }

  /** Hyphenating keeps the first and the last character. */
  lemma {:induction false} HyphenateEnds(s: string)
    requires s != []
    ensures var r := HyphenateCase(s); r != [] && r[0] == s[0] && r[|r| - 1] == s[|s| - 1]
  {
    if |s| >= 2 {
      if IsAsciiLower(s[0]) && IsAsciiUpper(s[1]) {
        if |s| > 2 {
          HyphenateEnds(s[2..]);
        }
      } else {
        HyphenateEnds(s[1..]);
      }
    }
  }

  /** The '-' `toKebabCase` adds where two texts meet: one exactly when a
      lower-case letter ends the first and a capital starts the second. */
  function Seam(x: string, y: string): string
  {
    if x != [] && y != [] && IsAsciiLower(x[|x| - 1]) && IsAsciiUpper(y[0]) then "-" else ""
  }

  lemma {:induction false} HyphenatePair(a: char, b: char, t: string)
    requires IsAsciiLower(a) && IsAsciiUpper(b)
    ensures HyphenateCase([a, b] + t) == [a, '-', b] + HyphenateCase(t)
  {
    assert ([a, b] + t)[2..] == t;
  }

  lemma {:induction false} HyphenateSingle(a: char, t: string)
    requires t == [] || !IsAsciiLower(a) || !IsAsciiUpper(t[0])
    ensures HyphenateCase([a] + t) == [a] + HyphenateCase(t)
  {
    assert ([a] + t)[1..] == t;
  }

  /** The scan of `replace(/([a-z])([A-Z])/g, ...)` over two joined texts:
      each is hyphenated on its own, with the seam between them. */
  lemma {:induction false} HyphenateConcat(x: string, y: string)
    ensures HyphenateCase(x + y) == HyphenateCase(x) + Seam(x, y) + HyphenateCase(y)
    decreases |x|
  {
    if x == [] {
      assert x + y == y;
    } else if |x| == 1 {
      HyphenateConcatSingle(x[0], y);
      assert x == [x[0]];
    } else if IsAsciiLower(x[0]) && IsAsciiUpper(x[1]) {
      HyphenateConcat(x[2..], y);
      HyphenateConcatPair(x[0], x[1], x[2..], y);
      assert x == [x[0], x[1]] + x[2..];
    } else {
      HyphenateConcat(x[1..], y);
      HyphenateConcatCons(x[0], x[1..], y);
      assert x == [x[0]] + x[1..];
    }
  }

  lemma {:induction false} HyphenateConcatSingle(a: char, y: string)
    ensures HyphenateCase([a] + y) == [a] + Seam([a], y) + HyphenateCase(y)
  {
    if Seam([a], y) == "-" {
      var b, v := y[0], y[1..];
      assert y == [b] + v && [a] + y == [a, b] + v;
      HyphenatePair(a, b, v);
      HyphenateSingle(b, v);
    } else {
      HyphenateSingle(a, y);
    }
  }

  lemma {:induction false} HyphenateConcatPair(a: char, b: char, t: string, y: string)
    requires IsAsciiLower(a) && IsAsciiUpper(b)
    requires HyphenateCase(t + y) == HyphenateCase(t) + Seam(t, y) + HyphenateCase(y)
    ensures HyphenateCase([a, b] + t + y) == HyphenateCase([a, b] + t) + Seam([a, b] + t, y) + HyphenateCase(y)
  {
    var u, ty := [a, b] + t, t + y;
    assert u + y == [a, b] + ty;
    SeamAfter([a, b], t, y);
    HyphenatePair(a, b, ty);
    HyphenatePair(a, b, t);
    calc {
      HyphenateCase(u + y);
      [a, '-', b] + HyphenateCase(ty);
      [a, '-', b] + (HyphenateCase(t) + Seam(t, y) + HyphenateCase(y));
      ([a, '-', b] + HyphenateCase(t)) + Seam(u, y) + HyphenateCase(y);
      HyphenateCase(u) + Seam(u, y) + HyphenateCase(y);
    }
  }

  /** Putting a text that does not end in a lower-case letter in front
      leaves the seam as it was. */
  lemma {:induction false} SeamAfter(p: string, t: string, y: string)
    requires p != [] && (t != [] || !IsAsciiLower(p[|p| - 1]))
    ensures Seam(p + t, y) == Seam(t, y)
  {
    var u := p + t;
    if t != [] {
      assert u[|u| - 1] == t[|t| - 1];
    } else {
      assert u == p;
    }
  }

  lemma {:induction false} HyphenateConcatCons(a: char, t: string, y: string)
    requires t != [] && !(IsAsciiLower(a) && IsAsciiUpper(t[0]))
    requires HyphenateCase(t + y) == HyphenateCase(t) + Seam(t, y) + HyphenateCase(y)
    ensures HyphenateCase([a] + t + y) == HyphenateCase([a] + t) + Seam([a] + t, y) + HyphenateCase(y)
  {
    var u, ty := [a] + t, t + y;
    assert u + y == [a] + ty;
    assert ty[0] == t[0];
    SeamAfter([a], t, y);
    HyphenateSingle(a, ty);
    HyphenateSingle(a, t);
    calc {
      HyphenateCase(u + y);
      [a] + HyphenateCase(ty);
      [a] + (HyphenateCase(t) + Seam(t, y) + HyphenateCase(y));
      ([a] + HyphenateCase(t)) + Seam(u, y) + HyphenateCase(y);
      HyphenateCase(u) + Seam(u, y) + HyphenateCase(y);
    }
  }

  /** What the scan emits for one character. */
  function CollapseHead(c: char, sep: char -> bool, repl: char, inRun: bool): string
  {
    if sep(c) then (if inRun then [] else [repl]) else [c]
  }

  /** One step of the scan: a separator opens or continues a run, any
      other character is kept and ends it. */
  lemma {:induction false} CollapseRunsStep(c: char, t: string, sep: char -> bool, repl: char, inRun: bool)
    ensures CollapseRunsFrom([c] + t, sep, repl, inRun) == CollapseHead(c, sep, repl, inRun) + CollapseRunsFrom(t, sep, repl, sep(c))
  {
    assert ([c] + t)[1..] == t;
  }

  /** Whether a scan is inside a run after reading `x`. */
  function RunFlag(x: string, sep: char -> bool, inRun: bool): bool
  {
    if x == [] then inRun else sep(x[|x| - 1])
  }

  /** The scan over two joined texts: the second continues a run exactly
      when the first ends in a separator. */
  lemma {:induction false} CollapseRunsConcat(x: string, y: string, sep: char -> bool, repl: char, inRun: bool)
    ensures CollapseRunsFrom(x + y, sep, repl, inRun) ==
      CollapseRunsFrom(x, sep, repl, inRun) + CollapseRunsFrom(y, sep, repl, RunFlag(x, sep, inRun))
    decreases |x|
  {
    if x == [] {
      assert x + y == y;
    } else {
      var c, t := x[0], x[1..];
      assert x == [c] + t;
      CollapseRunsConcat(t, y, sep, repl, sep(c));
      CollapseRunsConcatStep(c, t, y, sep, repl, inRun);
    }
  }

  lemma {:induction false} CollapseRunsConcatStep(c: char, t: string, y: string, sep: char -> bool, repl: char, inRun: bool)
    requires CollapseRunsFrom(t + y, sep, repl, sep(c)) ==
      CollapseRunsFrom(t, sep, repl, sep(c)) + CollapseRunsFrom(y, sep, repl, RunFlag(t, sep, sep(c)))
    ensures CollapseRunsFrom([c] + t + y, sep, repl, inRun) ==
      CollapseRunsFrom([c] + t, sep, repl, inRun) + CollapseRunsFrom(y, sep, repl, RunFlag([c] + t, sep, inRun))
  {
    var head := CollapseHead(c, sep, repl, inRun);
    var ct, ty := [c] + t, t + y;
    assert ct + y == [c] + ty;
    RunFlagCons(c, t, sep, inRun);
    CollapseRunsStep(c, t, sep, repl, inRun);
    CollapseRunsStep(c, ty, sep, repl, inRun);
    calc {
      CollapseRunsFrom(ct + y, sep, repl, inRun);
      head + CollapseRunsFrom(ty, sep, repl, sep(c));
      head + (CollapseRunsFrom(t, sep, repl, sep(c)) + CollapseRunsFrom(y, sep, repl, RunFlag(t, sep, sep(c))));
      (head + CollapseRunsFrom(t, sep, repl, sep(c))) + CollapseRunsFrom(y, sep, repl, RunFlag(ct, sep, inRun));
      CollapseRunsFrom(ct, sep, repl, inRun) + CollapseRunsFrom(y, sep, repl, RunFlag(ct, sep, inRun));
    }
  }

  lemma {:induction false} RunFlagCons(c: char, t: string, sep: char -> bool, inRun: bool)
    ensures RunFlag([c] + t, sep, inRun) == RunFlag(t, sep, sep(c))
  {
    var ct := [c] + t;
    if t != [] {
      assert ct[|ct| - 1] == t[|t| - 1];
    }
  }

  /** A run of separators alone gives one replacement, or nothing when it
      continues a run. */
  lemma {:induction false} CollapseRunsAllSep(run: string, sep: char -> bool, repl: char, inRun: bool)
    requires run != [] && AllOf(run, sep)
    ensures CollapseRunsFrom(run, sep, repl, inRun) == if inRun then [] else [repl]
  {
    if |run| > 1 {
      CollapseRunsAllSep(run[1..], sep, repl, true);
    }
  }

  /** A whole run of separators in front of a non-separator becomes the
      one replacement character. */
  lemma {:induction false} CollapseRunsRun(run: string, y: string, sep: char -> bool, repl: char)
    requires run != [] && AllOf(run, sep)
    requires y == [] || !sep(y[0])
    ensures CollapseRuns(run + y, sep, repl) == [repl] + CollapseRuns(y, sep, repl)
  {
    CollapseRunsConcat(run, y, sep, repl, false);
    CollapseRunsAllSep(run, sep, repl, false);
    if y != [] {
      CollapseRunsStep(y[0], y[1..], sep, repl, true);
      CollapseRunsStep(y[0], y[1..], sep, repl, false);
      assert y == [y[0]] + y[1..];
    }
  }

  lemma {:induction false} LowerConcat(a: string, b: string)
    ensures Lower(a + b) == Lower(a) + Lower(b)
  {
    assert forall k :: 0 <= k < |a + b| ==> Lower(a + b)[k] == (Lower(a) + Lower(b))[k];
  }

  /** A '-' after a non-separator stays, and the two sides are collapsed
      on their own. */
  lemma {:induction false} CollapseSeparatorsDash(x: string, y: string)
    requires x == [] || !IsKebabSeparator(x[|x| - 1])
    ensures CollapseSeparators(x + "-" + y) == CollapseSeparators(x) + "-" + CollapseSeparators(y)
  {
    assert x + "-" + y == x + ("-" + y);
    CollapseRunsConcat(x, "-" + y, IsKebabSeparator, '-', false);
    CollapseRunsStep('-', y, IsKebabSeparator, '-', false);
  }

  /** A whole run between two non-separators becomes one '-'. */
  lemma {:induction false} CollapseSeparatorsRun(x: string, run: string, y: string)
    requires x == [] || !IsKebabSeparator(x[|x| - 1])
    requires run != [] && AllOf(run, IsKebabSeparator)
    requires y == [] || !IsKebabSeparator(y[0])
    ensures CollapseSeparators(x + run + y) == CollapseSeparators(x) + "-" + CollapseSeparators(y)
  {
    assert x + run + y == x + (run + y);
    CollapseRunsConcat(x, run + y, IsKebabSeparator, '-', false);
    CollapseRunsRun(run, y, IsKebabSeparator, '-');
  }

  lemma {:induction false} LowerDash(x: string, y: string)
    ensures Lower(x + "-" + y) == Lower(x) + "-" + Lower(y)
  {
    LowerConcat(x + "-", y);
    LowerConcat(x, "-");
  }

  /** `toKebabCase` puts a '-' where a lower-case letter meets a capital,
      and kebab-cases the two sides on their own. */
  lemma {:induction false} ToKebabCaseBoundary(w: string, a: char, b: char, v: string)
    requires IsAsciiLower(a) && IsAsciiUpper(b)
    ensures ToKebabCase(w + [a, b] + v) == ToKebabCase(w + [a]) + "-" + ToKebabCase([b] + v)
  {
    var x, y := w + [a], [b] + v;
    assert w + [a, b] + v == x + y;
    HyphenateConcat(x, y);
    assert Seam(x, y) == "-";
    var hx, hy := HyphenateCase(x), HyphenateCase(y);
    HyphenateEnds(x);
    CollapseSeparatorsDash(hx, hy);
    LowerDash(CollapseSeparators(hx), CollapseSeparators(hy));
  }

  /** `toKebabCase` turns a whole run of whitespace and '_' into one '-',
      and kebab-cases the two sides on their own. */
  lemma {:induction false} ToKebabCaseRun(w: string, run: string, v: string)
    requires w == [] || !IsKebabSeparator(w[|w| - 1])
    requires run != [] && AllOf(run, IsKebabSeparator)
    requires v == [] || !IsKebabSeparator(v[0])
    ensures ToKebabCase(w + run + v) == ToKebabCase(w) + "-" + ToKebabCase(v)
  {
    var hw, hv := HyphenateCase(w), HyphenateCase(v);
    HyphenateRun(w, run, v);
    if w != [] {
      HyphenateEnds(w);
    }
    if v != [] {
      HyphenateEnds(v);
    }
    CollapseSeparatorsRun(hw, run, hv);
    LowerDash(CollapseSeparators(hw), CollapseSeparators(hv));
  }

  /** A run of separators holds no letter, so hyphenation leaves it and
      does not reach across it. */
  lemma {:induction false} HyphenateRun(w: string, run: string, v: string)
    requires run != [] && AllOf(run, IsKebabSeparator)
    ensures HyphenateCase(w + run + v) == HyphenateCase(w) + run + HyphenateCase(v)
  {
    var rv := run + v;
    assert w + run + v == w + rv;
    SeparatorNotLetter(run[0]);
    assert rv[0] == run[0];
    HyphenateNoSeam(w, rv);
    HyphenateRunFirst(run, v);
  }

  /** No '-' is added where the second text does not start with a capital. */
  lemma {:induction false} HyphenateNoSeam(x: string, y: string)
    requires y == [] || !IsAsciiUpper(y[0])
    ensures HyphenateCase(x + y) == HyphenateCase(x) + HyphenateCase(y)
  {
    HyphenateConcat(x, y);
    assert Seam(x, y) == "";
  }

  lemma {:induction false} HyphenateRunFirst(run: string, v: string)
    requires run != [] && AllOf(run, IsKebabSeparator)
    ensures HyphenateCase(run + v) == run + HyphenateCase(v)
  {
    forall k | 0 <= k < |run|
      ensures !IsAsciiUpper(run[k]) && !IsAsciiLower(run[k])
    {
      SeparatorNotLetter(run[k]);
    }
    HyphenateConcat(run, v);
    assert Seam(run, v) == "";
    HyphenateCaseNoUpper(run);
  }

  lemma {:induction false} SeparatorNotLetter(c: char)
    requires IsKebabSeparator(c)
    ensures !IsAsciiUpper(c) && !IsAsciiLower(c)
  {
  }

  /** A kebab-cased text has no whitespace, no '_' and no ASCII capital,
      and kebab-casing it again changes nothing. */
  lemma {:induction false} ToKebabCaseSpec(s: string)
    ensures var r := ToKebabCase(s);
      forall k :: 0 <= k < |r| ==> !IsKebabSeparator(r[k]) && !IsAsciiUpper(r[k])
    ensures ToKebabCase(ToKebabCase(s)) == ToKebabCase(s)
  {
    var c := CollapseSeparators(HyphenateCase(s));
    CollapseSeparatorsClean(HyphenateCase(s));
    var r := Lower(c);
    forall k | 0 <= k < |r|
      ensures !IsKebabSeparator(r[k]) && !IsAsciiUpper(r[k])
    {
      LowerCharClean(c[k]);
    }
    HyphenateCaseNoUpper(r);
    CollapseRunsKeeps(r, IsKebabSeparator, '-', false);
    LowerIdempotent(c);
  }

  /** A camel-cased text has no '-', '_' or whitespace and is no longer
      than the input. */
  lemma {:induction false} ToCamelCaseSpec(s: string)
    ensures var r := ToCamelCase(s);
      && |r| <= |s|
      && forall k :: 0 <= k < |r| ==> !IsCamelSeparator(r[k])
  {
    CamelFromClean(s, false);
  }

  lemma {:induction false} CamelFromClean(s: string, afterRun: bool)
    ensures var r := CamelFrom(s, afterRun);
      && |r| <= |s|
      && forall k :: 0 <= k < |r| ==> !IsCamelSeparator(r[k])
  {
    if s != [] {
      if IsCamelSeparator(s[0]) {
        CamelFromClean(s[1..], true);
      } else {
        CamelFromClean(s[1..], false);
        var c := if afterRun then UpperChar(s[0]) else s[0];
        UpperCharNotSeparator(s[0]);
        SeparatorFreeCons(c, CamelFrom(s[1..], false));
      }
    }
  }

  /** What the scan emits for one character. */
  function CamelHead(c: char, afterRun: bool): string
  {
    if IsCamelSeparator(c) then [] else [if afterRun then UpperChar(c) else c]
  }

  /** One step of the scan: a separator is dropped and marks the next
      character, any other character is kept, upper-cased when marked. */
  lemma {:induction false} CamelStep(c: char, t: string, afterRun: bool)
    ensures CamelFrom([c] + t, afterRun) == CamelHead(c, afterRun) + CamelFrom(t, IsCamelSeparator(c))
  {
    assert ([c] + t)[1..] == t;
  }

  /** The scan over two joined texts: the second starts marked exactly
      when the first ends in a separator. */
  lemma {:induction false} CamelConcat(x: string, y: string, afterRun: bool)
    ensures CamelFrom(x + y, afterRun) ==
      CamelFrom(x, afterRun) + CamelFrom(y, RunFlag(x, IsCamelSeparator, afterRun))
    decreases |x|
  {
    if x == [] {
      assert x + y == y;
    } else {
      var c, t := x[0], x[1..];
      assert x == [c] + t;
      CamelConcat(t, y, IsCamelSeparator(c));
      CamelConcatStep(c, t, y, afterRun);
    }
  }

  lemma {:induction false} CamelConcatStep(c: char, t: string, y: string, afterRun: bool)
    requires CamelFrom(t + y, IsCamelSeparator(c)) ==
      CamelFrom(t, IsCamelSeparator(c)) + CamelFrom(y, RunFlag(t, IsCamelSeparator, IsCamelSeparator(c)))
    ensures CamelFrom([c] + t + y, afterRun) ==
      CamelFrom([c] + t, afterRun) + CamelFrom(y, RunFlag([c] + t, IsCamelSeparator, afterRun))
  {
    var head := CamelHead(c, afterRun);
    var sc := IsCamelSeparator(c);
    var ct, ty := [c] + t, t + y;
    assert ct + y == [c] + ty;
    RunFlagCons(c, t, IsCamelSeparator, afterRun);
    CamelStep(c, t, afterRun);
    CamelStep(c, ty, afterRun);
    calc {
      CamelFrom(ct + y, afterRun);
      head + CamelFrom(ty, sc);
      head + (CamelFrom(t, sc) + CamelFrom(y, RunFlag(t, IsCamelSeparator, sc)));
      (head + CamelFrom(t, sc)) + CamelFrom(y, RunFlag(ct, IsCamelSeparator, afterRun));
      CamelFrom(ct, afterRun) + CamelFrom(y, RunFlag(ct, IsCamelSeparator, afterRun));
    }
  }

  /** A text of separators alone leaves nothing. */
  lemma {:induction false} CamelAllSep(run: string, afterRun: bool)
    requires AllOf(run, IsCamelSeparator)
    ensures CamelFrom(run, afterRun) == []
  {
    if run != [] {
      CamelAllSep(run[1..], true);
    }
  }

  /** `toCamelCase` drops a run of '-', '_' and whitespace and upper-cases
      the character after it; the separator-free text before the run is
      kept. */
  lemma {:induction false} ToCamelCaseRun(w: string, run: string, c: char, v: string)
    requires forall k :: 0 <= k < |w| ==> !IsCamelSeparator(w[k])
    requires run != [] && AllOf(run, IsCamelSeparator)
    requires !IsCamelSeparator(c)
    ensures ToCamelCase(w + run + [c] + v) == w + [UpperChar(c)] + ToCamelCase(v)
  {
    assert w + run + [c] + v == w + (run + ([c] + v));
    CamelConcat(w, run + ([c] + v), false);
    ToCamelCaseKeeps(w);
    CamelConcat(run, [c] + v, false);
    CamelAllSep(run, false);
    CamelStep(c, v, true);
  }

  /** A run of separators at the end is dropped with nothing after it. */
  lemma {:induction false} ToCamelCaseTrailing(w: string, run: string)
    requires forall k :: 0 <= k < |w| ==> !IsCamelSeparator(w[k])
    requires AllOf(run, IsCamelSeparator)
    ensures ToCamelCase(w + run) == w
  {
    CamelConcat(w, run, false);
    ToCamelCaseKeeps(w);
    CamelAllSep(run, RunFlag(w, IsCamelSeparator, false));
  }

  /** Upper-casing never makes a separator out of a non-separator. */
  lemma {:induction false} UpperCharNotSeparator(c: char)
    requires !IsCamelSeparator(c)
    ensures !IsCamelSeparator(UpperChar(c))
  {
  }

  lemma {:induction false} SeparatorFreeCons(c: char, t: string)
    requires !IsCamelSeparator(c)
    requires forall k :: 0 <= k < |t| ==> !IsCamelSeparator(t[k])
    ensures forall k :: 0 <= k < |[c] + t| ==> !IsCamelSeparator(([c] + t)[k])
  {
    forall k | 0 <= k < |[c] + t|
      ensures !IsCamelSeparator(([c] + t)[k])
    {
      if k > 0 {
        assert ([c] + t)[k] == t[k - 1];
      }
    }
  }

  lemma {:induction false} ToCamelCaseKeeps(s: string)
    requires forall k :: 0 <= k < |s| ==> !IsCamelSeparator(s[k])
    ensures ToCamelCase(s) == s
  {
    if s != [] {
      ToCamelCaseKeeps(s[1..]);
      assert s == [s[0]] + s[1..];
    }
  }

  lemma {:induction false} ToCamelCaseIdempotent(s: string)
    ensures ToCamelCase(ToCamelCase(s)) == ToCamelCase(s)
  {
    ToCamelCaseSpec(s);
    ToCamelCaseKeeps(ToCamelCase(s));
  }
}
