/** The display helpers of src/lib/utils.ts: `maskAmount`, which turns
    whatever was typed into a money field into `$1,234.5` form, and
    `toCapitalize`, which upper-cases the first character of a name. */
module Format {

  predicate IsDigit(c: char)
  {
    '0' <= c <= '9'
  }

  /** `/[^\d.]/g`: the characters the mask keeps. */
  predicate Kept(c: char)
  {
    IsDigit(c) || c == '.'
  }

  predicate AllDigits(s: string)
  {
    forall i :: 0 <= i < |s| ==> IsDigit(s[i])
  }

  /** `value.replace(/[^\d.]/g, '')`: the digits and dots of `value`, in order. */
  function Clean(value: string): (cleaned: string)
    ensures |cleaned| <= |value|
    ensures forall i :: 0 <= i < |cleaned| ==> Kept(cleaned[i])
  {
    if |value| == 0 then ""
    else (if Kept(value[0]) then [value[0]] else []) + Clean(value[1..])
  }

  /** Cleaning drops exactly the characters that are neither digits nor dots. */
  lemma {:induction false} CleanMembers(value: string)
    ensures forall c :: c in Clean(value) <==> c in value && Kept(c)
  {
    if |value| > 0 {
      CleanMembers(value[1..]);
      assert forall c :: c in value <==> c == value[0] || c in value[1..];
    }
  }

  /** A value that holds only digits and dots is already clean. */
  lemma {:induction false} CleanKeepsClean(value: string)
    requires forall i :: 0 <= i < |value| ==> Kept(value[i])
    ensures Clean(value) == value
  {
    if |value| > 0 {
      CleanKeepsClean(value[1..]);
      assert value == [value[0]] + value[1..];
    }
  }

  /** Cleaning works piece by piece: together with the one-character cases
      of the definition, this pins `Clean` down as the in-order subsequence
      of the kept characters, each kept as often as it occurs. */
  lemma {:induction false} CleanAppend(a: string, b: string)
    ensures Clean(a + b) == Clean(a) + Clean(b)
  {
    if |a| == 0 {
      assert a + b == b;
    } else {
      assert (a + b)[1..] == a[1..] + b;
      CleanAppend(a[1..], b);
    }
  }

  // ---------------------------------------------------------------------
  // String.prototype.split with a one-character separator

  /** `s.split(sep)`: the pieces between the separators, so there is always
      one more piece than there are separators. */
  function Split(s: string, sep: char): (parts: seq<string>)
    ensures |parts| >= 1
    ensures forall k :: 0 <= k < |parts| ==> sep !in parts[k]
  {
    if |s| == 0 then [""]
    else if s[0] == sep then [""] + Split(s[1..], sep)
    else
      var rest := Split(s[1..], sep);
      [[s[0]] + rest[0]] + rest[1..]
  }

  /** The inverse of `Split`: the pieces glued back with the separator. */
  function Join(parts: seq<string>, sep: char): string
    requires |parts| >= 1
  {
    if |parts| == 1 then parts[0] else parts[0] + [sep] + Join(parts[1..], sep)
  }

  /** Gluing the pieces back gives the original string. */
  lemma {:induction false} JoinSplit(s: string, sep: char)
    ensures Join(Split(s, sep), sep) == s
  {
    if |s| > 0 {
      JoinSplit(s[1..], sep);
      var rest := Split(s[1..], sep);
      if s[0] != sep && |rest| > 1 {
        var parts := Split(s, sep);
        assert parts[1..] == rest[1..];
        assert Join(parts, sep) == [s[0]] + rest[0] + [sep] + Join(rest[1..], sep);
      }
    }
  }

  /** Splitting pieces that hold no separator, glued with it, gives the pieces back. */
  lemma {:induction false} SplitJoin(parts: seq<string>, sep: char)
    requires |parts| >= 1
    requires forall k :: 0 <= k < |parts| ==> sep !in parts[k]
    ensures Split(Join(parts, sep), sep) == parts
  {
    if |parts| == 1 {
      SplitPiece(parts[0], sep);
    } else {
      SplitJoin(parts[1..], sep);
      SplitPrefix(parts[0], Join(parts[1..], sep), sep);
      assert parts == [parts[0]] + parts[1..];
    }
  }

  /** A string without the separator splits into itself. */
  lemma {:induction false} SplitPiece(s: string, sep: char)
    requires sep !in s
    ensures Split(s, sep) == [s]
  {
    if |s| > 0 {
      assert forall c :: c in s[1..] ==> c in s;
      SplitPiece(s[1..], sep);
      assert [s[0]] + s[1..] == s;
    }
  }

  /** A separator-free prefix followed by a separator starts a new piece. */
  lemma {:induction false} SplitPrefix(a: string, b: string, sep: char)
    requires sep !in a
    ensures Split(a + [sep] + b, sep) == [a] + Split(b, sep)
  {
    if |a| == 0 {
      assert a + [sep] + b == [sep] + b;
      assert ([sep] + b)[1..] == b;
    } else {
      SplitPrefix(a[1..], b, sep);
      var s := a + [sep] + b;
      assert s[0] == a[0];
      assert s[1..] == a[1..] + [sep] + b;
      assert [a[0]] + a[1..] == a;
    }
  }

  // ---------------------------------------------------------------------
  // The integer part

  /** `replace(/^0+/, '')`: drops every leading zero. */
  function StripLeadingZeros(s: string): (r: string)
    ensures |r| <= |s|
    ensures s[|s| - |r|..] == r
    ensures forall i :: 0 <= i < |s| - |r| ==> s[i] == '0'
    ensures |r| == 0 || r[0] != '0'
  {
    if |s| > 0 && s[0] == '0' then StripLeadingZeros(s[1..]) else s
  }

  /** Whether `\B(?=(\d{3})+(?!\d))` matches at index `i` of an all-digit
      string of length `n`: strictly inside it, with a positive multiple of
      three digits to its right. */
  predicate CommaBefore(n: int, i: int)
  {
    0 < i < n && (n - i) % 3 == 0
  }

  /** `replace(/\B(?=(\d{3})+(?!\d))/g, ',')` on the characters of `s` from
      index `i` on: a comma goes before every index the pattern matches. */
  function GroupFrom(s: string, i: nat): string
    requires i <= |s|
    decreases |s| - i
  {
    if i == |s| then ""
    else (if CommaBefore(|s|, i) then "," else "") + [s[i]] + GroupFrom(s, i + 1)
  }

  function Group(s: string): string
  {
    GroupFrom(s, 0)
  }

  /** Thousands grouping as written out by hand: the last three digits,
      preceded by a comma and the grouping of everything before them. */
  function GroupThousands(s: string): string
  {
    if |s| <= 3 then s else GroupThousands(s[..|s| - 3]) + "," + s[|s| - 3..]
  }

  /** Drops every comma. */
  function RemoveCommas(s: string): string
  {
    if |s| == 0 then "" else (if s[0] == ',' then "" else [s[0]]) + RemoveCommas(s[1..])
  }

  /** Where the pattern matches in a string does not change when a group of
      three characters is appended. */
  lemma {:induction false} GroupFromAppend(s: string, t: string, i: nat)
    requires i <= |s| && |t| == 3
    ensures GroupFrom(s + t, i) == GroupFrom(s, i) + (if |s| > 0 then "," else "") + t
    decreases |s| - i
  {
    if i == |s| {
      GroupFromTail(s + t, |s|);
    } else {
      GroupFromAppend(s, t, i + 1);
      GroupFromStep(s, t, i);
    }
  }

  /** One step of `GroupFromAppend`: a character of `s` gets the same comma
      in `s` as in `s + t`. */
  lemma GroupFromStep(s: string, t: string, i: nat)
    requires i < |s| && |t| == 3
    requires GroupFrom(s + t, i + 1) == GroupFrom(s, i + 1) + (if |s| > 0 then "," else "") + t
    ensures GroupFrom(s + t, i) == GroupFrom(s, i) + (if |s| > 0 then "," else "") + t
  {
    var st := s + t;
    var c := if CommaBefore(|s|, i) then "," else "";
    assert CommaBefore(|st|, i) == CommaBefore(|s|, i);
    assert GroupFrom(st, i) == c + [s[i]] + GroupFrom(st, i + 1);
    Regroup(c + [s[i]], GroupFrom(s, i + 1), if |s| > 0 then "," else "", t);
  }

  lemma Regroup(a: string, b: string, c: string, d: string)
    ensures a + (b + c + d) == (a + b) + c + d
  {
  }

  /** The last three characters of a string carry no comma except possibly
      before the first of them. */
  lemma GroupFromTail(st: string, j: nat)
    requires j + 3 == |st|
    ensures GroupFrom(st, j) == (if j > 0 then "," else "") + st[j..]
  {
    assert GroupFrom(st, j + 3) == "";
    assert GroupFrom(st, j + 2) == [st[j + 2]];
    assert GroupFrom(st, j + 1) == [st[j + 1]] + [st[j + 2]];
    assert st[j..] == [st[j]] + [st[j + 1]] + [st[j + 2]];
  }

  /** The pattern-based grouping agrees with the hand-written one: a comma
      before every group of three digits counted from the right. */
  lemma {:induction false} GroupIsThousands(s: string)
    ensures Group(s) == GroupThousands(s)
    decreases |s|
  {
    if |s| <= 3 {
      NoCommaInShort(s, 0);
    } else {
      var head := s[..|s| - 3];
      var tail := s[|s| - 3..];
      assert s == head + tail;
      GroupFromAppend(head, tail, 0);
      GroupIsThousands(head);
    }
  }

  /** Strings of at most three characters get no comma. */
  lemma {:induction false} NoCommaInShort(s: string, i: nat)
    requires |s| <= 3 && i <= |s|
    ensures GroupFrom(s, i) == s[i..]
    decreases |s| - i
  {
    if i < |s| {
      NoCommaInShort(s, i + 1);
      assert s[i..] == [s[i]] + s[i + 1..];
    }
  }

  /** Removing the commas from the grouping gives the digits back. */
  lemma {:induction false} UngroupFrom(s: string, i: nat)
    requires i <= |s| && ',' !in s
    ensures RemoveCommas(GroupFrom(s, i)) == s[i..]
    decreases |s| - i
  {
    if i < |s| {
      UngroupFrom(s, i + 1);
      var c := if CommaBefore(|s|, i) then "," else "";
      RemoveCommasAppend(c + [s[i]], GroupFrom(s, i + 1));
      RemoveCommasAppend(c, [s[i]]);
      assert s[i..] == [s[i]] + s[i + 1..];
    }
  }

  lemma {:induction false} RemoveCommasAppend(a: string, b: string)
    ensures RemoveCommas(a + b) == RemoveCommas(a) + RemoveCommas(b)
  {
    if |a| == 0 {
      assert a + b == b;
    } else {
      assert (a + b)[1..] == a[1..] + b;
      RemoveCommasAppend(a[1..], b);
    }
  }

  /** The grouping adds one comma per full group of three beyond the first. */
  lemma {:induction false} GroupLength(s: string)
    requires |s| > 0
    ensures |Group(s)| == |s| + (|s| - 1) / 3
    decreases |s|
  {
    GroupIsThousands(s);
    if |s| > 3 {
      GroupLength(s[..|s| - 3]);
      GroupIsThousands(s[..|s| - 3]);
    }
  }

  /** The integer part as displayed: `'0'` stays `'0'`, anything else loses
      its leading zeros and gets its thousands separators. */
  function FormatInteger(integerPart: string): string
  {
    if integerPart == "0" then "0" else Group(StripLeadingZeros(integerPart))
  }

  /** maskAmount. `cleanedValue.split('.')` is destructured into its first
      two pieces: the integer part, and the decimal part when there is at
      least one dot. */
  function MaskAmount(value: string): (r: string)
    ensures r == "" <==> forall i :: 0 <= i < |value| ==> !Kept(value[i])
    ensures r != "" ==> r[0] == '$'
  {
    var cleaned := Clean(value);
    CleanMembers(value);
    if cleaned == "" then
      assert forall i :: 0 <= i < |value| ==> !Kept(value[i]) by {
        forall i | 0 <= i < |value| ensures !Kept(value[i]) {
          assert value[i] in value;
        }
      }
      ""
    else
      assert cleaned[0] in value;
      var parts := Split(cleaned, '.');
      var formatted := FormatInteger(parts[0]) + (if |parts| > 1 then "." + parts[1] else "");
      "$" + formatted
  }

  /** Without a dot the whole cleaned value is the integer part. */
  lemma MaskWithoutDot(value: string)
    requires Clean(value) != "" && '.' !in Clean(value)
    ensures MaskAmount(value) == "$" + FormatInteger(Clean(value))
  {
    SplitPiece(Clean(value), '.');
  }

  /** With one dot the text after it is kept verbatim as the decimal part. */
  lemma MaskWithOneDot(value: string, integerPart: string, decimalPart: string)
    requires Clean(value) == integerPart + "." + decimalPart
    requires '.' !in integerPart && '.' !in decimalPart
    ensures MaskAmount(value) == "$" + FormatInteger(integerPart) + "." + decimalPart
  {
    SplitPrefix(integerPart, decimalPart, '.');
    SplitPiece(decimalPart, '.');
    MaskOfParts(value);
  }

  /** With a second dot, the text from the second dot on is dropped. */
  lemma MaskDropsAfterSecondDot(value: string, integerPart: string, decimalPart: string, rest: string)
    requires Clean(value) == integerPart + "." + decimalPart + "." + rest
    requires '.' !in integerPart && '.' !in decimalPart
    ensures MaskAmount(value) == "$" + FormatInteger(integerPart) + "." + decimalPart
  {
    SplitTwoDots(integerPart, decimalPart, rest);
    MaskOfParts(value);
  }

  /** The first two pieces of a string with at least two dots. */
  lemma SplitTwoDots(a: string, b: string, rest: string)
    requires '.' !in a && '.' !in b
    ensures var parts := Split(a + "." + b + "." + rest, '.');
      |parts| > 2 && parts[0] == a && parts[1] == b
  {
    var tail := b + "." + rest;
    assert a + "." + b + "." + rest == a + "." + tail;
    SplitPrefix(a, tail, '.');
    SplitPrefix(b, rest, '.');
  }

  /** The mask of a non-empty cleaned value in terms of its pieces. */
  lemma MaskOfParts(value: string)
    requires Clean(value) != ""
    ensures var parts := Split(Clean(value), '.');
      MaskAmount(value) == "$" + FormatInteger(parts[0]) + (if |parts| > 1 then "." + parts[1] else "")
  {
  }

  /** The displayed integer part, with its commas removed, is the digits
      typed without leading zeros (or the single `0`). */
  lemma UnmaskInteger(integerPart: string)
    requires AllDigits(integerPart)
    ensures RemoveCommas(FormatInteger(integerPart))
         == if integerPart == "0" then "0" else StripLeadingZeros(integerPart)
  {
    if integerPart != "0" {
      var digits := StripLeadingZeros(integerPart);
      assert forall k :: 0 <= k < |digits| ==> digits[k] == integerPart[|integerPart| - |digits| + k];
      assert ',' !in digits;
      UngroupFrom(digits, 0);
    }
  }

  // ---------------------------------------------------------------------
  // toCapitalize

  /** `String.prototype.toUpperCase` on one character of the Latin-1 range:
      ASCII and accented lower-case letters move down by 32, `ÿ` becomes
      `Ÿ` (U+0178), the micro sign becomes capital mu (U+039C) and `ß`
      becomes the two letters `SS`. Every other character maps to itself. */
  function UpperCase(c: char): (u: string)
    ensures 1 <= |u| <= 2
    ensures |u| == 2 <==> c == '\U{DF}'
  {
    if 'a' <= c <= 'z' then [(c as int - 32) as char]
    else if '\U{E0}' <= c <= '\U{FE}' && c != '\U{F7}' then [(c as int - 32) as char]
    else if c == '\U{FF}' then ['\U{178}']
    else if c == '\U{B5}' then ['\U{39C}']
    else if c == '\U{DF}' then "SS"
    else [c]
  }

  /** Upper-casing an upper-cased character changes nothing more. */
  lemma UpperCaseIdempotent(c: char)
    ensures UpperCase(UpperCase(c)[0]) == [UpperCase(c)[0]]
  {
  }

  /** toCapitalize: `str[0].toUpperCase() + str.slice(1)`. `str[0]` of the
      empty string is `undefined`, so the call throws there. */
  function ToCapitalize(s: string): (r: string)
    requires |s| > 0
    ensures |r| == if s[0] == '\U{DF}' then |s| + 1 else |s|
    ensures r[|r| - (|s| - 1)..] == s[1..]
    ensures 'a' <= s[0] <= 'z' ==> r[0] == (s[0] as int - 32) as char
    ensures '\U{E0}' <= s[0] <= '\U{FE}' && s[0] != '\U{F7}' ==> r[0] == (s[0] as int - 32) as char
    ensures s[0] == '\U{FF}' ==> r[0] == '\U{178}'
    ensures s[0] == '\U{B5}' ==> r[0] == '\U{39C}'
    ensures s[0] == '\U{DF}' ==> r[..2] == "SS"
    ensures (s[0] <= '\U{FF}' && !('a' <= s[0] <= 'z') && s[0] != '\U{B5}'
             && !('\U{DF}' <= s[0] <= '\U{FF}' && s[0] != '\U{F7}')) ==> r == s
  {
    UpperCase(s[0]) + s[1..]
  }

  /** Capitalising twice is capitalising once. */
  lemma CapitalizeIdempotent(s: string)
    requires |s| > 0
    ensures ToCapitalize(ToCapitalize(s)) == ToCapitalize(s)
  {
    var u := UpperCase(s[0]);
    UpperCaseIdempotent(s[0]);
    var r := ToCapitalize(s);
    assert r[0] == u[0];
    assert r[1..] == u[1..] + s[1..];
  }
}
