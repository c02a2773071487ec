/*
  StringExtensions: the string parsers and converters the command line and
  the archive descriptions rely on. A C# `string` that may be null is an
  `Option<string>`; case folding is ASCII only.
*/
module StringExtensions {
  import opened Wrappers

  // ------------------------------------------------------ characters

  predicate IsUpperAZ(c: char) { 'A' <= c <= 'Z' }
  predicate IsLowerAZ(c: char) { 'a' <= c <= 'z' }
  predicate IsDigit(c: char) { '0' <= c <= '9' }

  function ToLowerChar(c: char): (r: char)
    ensures !IsUpperAZ(r)
    ensures IsUpperAZ(c) || r == c
  {
    if IsUpperAZ(c) then (c as int - 'A' as int + 'a' as int) as char else c
  }

  function ToUpperChar(c: char): (r: char)
    ensures !IsLowerAZ(r)
    ensures IsLowerAZ(c) || r == c
  {
    if IsLowerAZ(c) then (c as int - 'a' as int + 'A' as int) as char else c
  }

  function Lower(s: string): (r: string)
    ensures |r| == |s|
    ensures forall i | 0 <= i < |s| :: r[i] == ToLowerChar(s[i])
  {
    seq(|s|, i requires 0 <= i < |s| => ToLowerChar(s[i]))
  }

  function Upper(s: string): (r: string)
    ensures |r| == |s|
    ensures forall i | 0 <= i < |s| :: r[i] == ToUpperChar(s[i])
  {
    seq(|s|, i requires 0 <= i < |s| => ToUpperChar(s[i]))
  }

  lemma {:induction false} UpperOfLower(s: string)
    ensures Upper(Lower(s)) == Upper(s)
  {
  }

  // ------------------------------------------------------ IsEmpty / IfEmpty

  /** `string.IsNullOrEmpty`. */
  predicate IsEmpty(s: Option<string>)
    ensures IsEmpty(s) <==> |s.GetOr("")| == 0
  {
    s.None? || s.value == ""
  }

  /** `IfEmpty<T>`: it calls the generic `IsEmpty<T>`, which compares with
      `default(T)`; for a string that is null, so only null takes the
      fallback. */
  function IfEmpty(obj: Option<string>, fallback: Option<string>): (r: Option<string>)
    ensures obj.None? ==> r == fallback
    ensures obj.Some? ==> r == obj
  {
    if obj.None? then fallback else obj
  }

  /** The empty string is "empty" to `IsEmpty(string)`, yet `IfEmpty`
      keeps it. */
  lemma {:induction false} IfEmptyKeepsEmptyString(fallback: Option<string>)
    ensures IsEmpty(Some(""))
    ensures IfEmpty(Some(""), fallback) == Some("")
  {
  }

  // ------------------------------------------------------ integers

  const Int32Min: int := -0x8000_0000
  const Int32Max: int := 0x7FFF_FFFF
  const Int64Min: int := -0x8000_0000_0000_0000
  const Int64Max: int := 0x7FFF_FFFF_FFFF_FFFF

  /** The white space `TryParse` skips at either end. */
  predicate IsWhite(c: char) { c == ' ' || '\t' <= c <= '\r' }

  function TrimWhiteStart(s: string): (r: string)
    ensures |r| <= |s|
    ensures r == [] || !IsWhite(r[0])
  {
    if s != [] && IsWhite(s[0]) then TrimWhiteStart(s[1..]) else s
  }

  function TrimWhiteEnd(s: string): (r: string)
    ensures |r| <= |s|
    ensures r == [] || !IsWhite(Last(r))
  {
    if s != [] && IsWhite(Last(s)) then TrimWhiteEnd(Init(s)) else s
  }

  function Last<T>(s: seq<T>): T
    requires s != []
  {
    s[|s| - 1]
  }

  function Init<T>(s: seq<T>): seq<T>
    requires s != []
  {
    s[..|s| - 1]
  }

  predicate AllDigits(s: string) {
    forall i | 0 <= i < |s| :: IsDigit(s[i])
  }

  function DigitValue(c: char): nat
    requires IsDigit(c)
  {
    c as int - '0' as int
  }

  function DigitsValue(s: string): (r: nat)
    requires AllDigits(s)
  {
    if s == [] then 0 else DigitsValue(Init(s)) * 10 + DigitValue(Last(s))
  }

  function Signed(n: nat, negative: bool): int {
    if negative then -(n as int) else n
  }

  /** `TryParse` with the default integer style: white space around an
      optional sign and at least one decimal digit, in the range
      `[lo, hi]`. */
  function ParseInteger(str: string, lo: int, hi: int): (r: Option<int>)
    ensures r.Some? ==> lo <= r.value <= hi
  {
    var s := TrimWhiteEnd(TrimWhiteStart(str));
    var negative := s != [] && s[0] == '-';
    var digits := if s != [] && (s[0] == '-' || s[0] == '+') then s[1..] else s;
    if digits == [] || !AllDigits(digits) then None
    else
      var n := Signed(DigitsValue(digits), negative);
      if lo <= n <= hi then Some(n) else None
  }

  /** `ToInt`: the parsed 32-bit value, or 0 (a null string parses as ""). */
  function ToInt(str: Option<string>): (r: int)
    ensures Int32Min <= r <= Int32Max
    ensures ParseInteger(str.GetOr(""), Int32Min, Int32Max).None? ==> r == 0
  {
    ParseInteger(str.GetOr(""), Int32Min, Int32Max).GetOr(0)
  }

  /** `ToLong`: the parsed 64-bit value, or 0. */
  function ToLong(str: Option<string>): (r: int)
    ensures Int64Min <= r <= Int64Max
    ensures ParseInteger(str.GetOr(""), Int64Min, Int64Max).None? ==> r == 0
  {
    ParseInteger(str.GetOr(""), Int64Min, Int64Max).GetOr(0)
  }

  function DigitChar(d: nat): (c: char)
    requires d < 10
    ensures IsDigit(c) && DigitValue(c) == d
  {
    ('0' as int + d) as char
  }

  /** The decimal representation of a natural number. */
  function Show(n: nat): (r: string)
    ensures r != []
  {
    if n < 10 then [DigitChar(n)] else Show(n / 10) + [DigitChar(n % 10)]
  }

  lemma {:induction false} ShowDigits(n: nat)
    ensures AllDigits(Show(n)) && DigitsValue(Show(n)) == n
  {
    if n >= 10 {
      ShowDigits(n / 10);
      var s := Show(n);
      assert Init(s) == Show(n / 10);
      assert Last(s) == DigitChar(n % 10);
    }
  }

  /** Parsing reads back a number's decimal representation, signed. */
  lemma {:induction false} ParseShow(n: nat, negative: bool, lo: int, hi: int)
    ensures ParseInteger((if negative then "-" else "") + Show(n), lo, hi)
            == if lo <= Signed(n, negative) <= hi then Some(Signed(n, negative)) else None
  {
    ShowDigits(n);
    var s := (if negative then "-" else "") + Show(n);
    assert s[0] == '-' <==> negative;
    assert !IsWhite(s[0]) && !IsWhite(Last(s));
    if negative {
      assert s[1..] == Show(n);
    } else {
      assert s == Show(n);
      assert !(s[0] == '-' || s[0] == '+');
    }
  }

  /** `ToInt` and `ToLong` read back every value in their range, and give
      0 for a number outside it. */
  lemma {:induction false} ToIntShow(n: nat, negative: bool)
    ensures var s := Some((if negative then "-" else "") + Show(n));
            ToInt(s) == if Int32Min <= Signed(n, negative) <= Int32Max then Signed(n, negative) else 0
    ensures var s := Some((if negative then "-" else "") + Show(n));
            ToLong(s) == if Int64Min <= Signed(n, negative) <= Int64Max then Signed(n, negative) else 0
  {
    ParseShow(n, negative, Int32Min, Int32Max);
    ParseShow(n, negative, Int64Min, Int64Max);
  }

  /** A number followed by a letter does not parse. */
  lemma {:induction false} ToIntRejectsSuffix(n: nat, c: char)
    requires !IsDigit(c) && !IsWhite(c)
    ensures ToInt(Some(Show(n) + [c])) == 0 && ToLong(Some(Show(n) + [c])) == 0
  {
    ShowDigits(n);
    var s := Show(n) + [c];
    assert !IsWhite(s[0]) && !IsWhite(Last(s));
    assert !(s[0] == '-' || s[0] == '+');
    assert !IsDigit(s[|s| - 1]);
  }

  // ------------------------------------------------------ ToBool

  predicate TrueWord(u: string) { u == "1" || u == "TRUE" || u == "Y" || u == "YES" }
  predicate FalseWord(u: string) { u == "0" || u == "FALSE" || u == "N" || u == "NO" }

  /** `ToBool`: a true word, a false word, or the default. */
  function ToBool(str: Option<string>, defaultValue: bool): (r: bool)
    ensures IsEmpty(str) ==> r == defaultValue
    ensures !IsEmpty(str) && TrueWord(Upper(str.value)) ==> r
    ensures !IsEmpty(str) && FalseWord(Upper(str.value)) ==> !r
    ensures !IsEmpty(str) && !TrueWord(Upper(str.value)) && !FalseWord(Upper(str.value)) ==> r == defaultValue
  {
    if IsEmpty(str) then defaultValue
    else if TrueWord(Upper(str.value)) then true
    else if FalseWord(Upper(str.value)) then false
    else defaultValue
  }

  /** The words are matched without regard to case. */
  lemma {:induction false} ToBoolIgnoresCase(s: string, defaultValue: bool)
    ensures ToBool(Some(Lower(s)), defaultValue) == ToBool(Some(s), defaultValue)
    ensures ToBool(Some(Upper(s)), defaultValue) == ToBool(Some(s), defaultValue)
  {
    UpperOfLower(s);
    assert Upper(Upper(s)) == Upper(s);
  }

  lemma {:induction false} ToBoolWords(defaultValue: bool)
    ensures ToBool(Some("yes"), false) && ToBool(Some("True"), false)
    ensures !ToBool(Some("no"), true) && !ToBool(Some("0"), true)
    ensures ToBool(Some("maybe"), defaultValue) == defaultValue
  {
    assert Upper("yes") == "YES";
    assert Upper("True") == "TRUE";
    assert Upper("no") == "NO";
    assert Upper("0") == "0";
    assert Upper("maybe") == "MAYBE";
  }

  // ------------------------------------------------------ ToByteSize

  /** A product in C#'s unchecked 32-bit `int`. */
  function Wrap32(x: int): (r: int)
    ensures Int32Min <= r <= Int32Max
    ensures Int32Min <= x <= Int32Max ==> r == x
  {
    (x - Int32Min) % 0x1_0000_0000 + Int32Min
  }

  /** The factor of a size suffix: G, M and K in either case are powers
      of 1024; any other character leaves the number as it is. */
  function Multiplier(c: char): (r: nat)
    ensures r == 1 || r == 1024 || r == 1024 * 1024 || r == 1024 * 1024 * 1024
    ensures r == 1 <==> c !in "gGmMkK"
  {
    if c == 'g' || c == 'G' then 1024 * 1024 * 1024
    else if c == 'm' || c == 'M' then 1024 * 1024
    else if c == 'k' || c == 'K' then 1024
    else 1
  }

  /** `Regex.Replace(str, "[^0-9]*$", "")`: drops the trailing non-digits. */
  function StripNonDigitSuffix(s: string): (r: string)
    ensures |r| <= |s| && r == s[..|r|]
    ensures r == [] || IsDigit(Last(r))
    ensures forall i | |r| <= i < |s| :: !IsDigit(s[i])
  {
    if s == [] || IsDigit(Last(s)) then s else StripNonDigitSuffix(Init(s))
  }

  /** `ToByteSize`: a count with an optional k/m/g suffix, in 32-bit arithmetic. */
  function ToByteSize(str: Option<string>): (r: int)
    ensures Int32Min <= r <= Int32Max
    ensures IsEmpty(str) ==> r == 0
  {
    if IsEmpty(str) then 0
    else Wrap32(ToInt(Some(StripNonDigitSuffix(str.value))) * Multiplier(Last(str.value)))
  }

  /** A count followed by a unit letter is scaled by that unit. */
  lemma {:induction false} ToByteSizeScales(n: nat, unit: char)
    requires n <= Int32Max && !IsDigit(unit)
    ensures ToByteSize(Some(Show(n) + [unit])) == Wrap32(n * Multiplier(unit))
  {
    ShowDigits(n);
    var s := Show(n) + [unit];
    assert Init(s) == Show(n);
    ToIntShow(n, false);
    assert "" + Show(n) == Show(n);
  }

  /** "2G" overflows the 32-bit product and wraps to the most negative int. */
  lemma {:induction false} ToByteSizeWraps()
    ensures ToByteSize(Some("2G")) == Int32Min
    ensures ToByteSize(Some("1G")) == 1024 * 1024 * 1024
    ensures ToByteSize(Some("")) == 0
  {
    assert Multiplier('G') == 1073741824;
    assert Wrap32(2 * 1073741824) == Int32Min;
    assert Wrap32(1 * 1073741824) == 1073741824;
    ToByteSizeScales(2, 'G');
    ToByteSizeScales(1, 'G');
    assert Show(2) + ['G'] == "2G";
    assert Show(1) + ['G'] == "1G";
  }

  // ------------------------------------------------------ EqualsCI

  /** `EqualsCI`: a null string equals nothing; a null other reads as "". */
  function EqualsCI(str: Option<string>, other: Option<string>): (r: bool)
    ensures str.None? ==> !r
    ensures r ==> |str.value| == |other.GetOr("")|
  {
    str.Some? && Upper(str.value) == Upper(other.GetOr(""))
  }

  lemma {:induction false} EqualsCIIsEquivalence(a: string, b: string, c: string)
    ensures EqualsCI(Some(a), Some(a))
    ensures EqualsCI(Some(a), Some(b)) == EqualsCI(Some(b), Some(a))
    ensures EqualsCI(Some(a), Some(b)) && EqualsCI(Some(b), Some(c)) ==> EqualsCI(Some(a), Some(c))
    ensures EqualsCI(Some(Lower(a)), Some(a))
  {
    UpperOfLower(a);
  }

  // ------------------------------------------------------ SplitFirst

  predicate StartsAt(s: string, d: string, k: nat) {
    k + |d| <= |s| && s[k..k + |d|] == d
  }

  /** `IndexOf`: the first position from `i` on where `d` starts. */
  function IndexFrom(s: string, d: string, i: nat): (r: Option<nat>)
    ensures r.Some? ==> i <= r.value && StartsAt(s, d, r.value)
    ensures r.Some? ==> forall k | i <= k < r.value :: !StartsAt(s, d, k)
    ensures r.None? ==> forall k | i <= k :: !StartsAt(s, d, k)
    decreases |s| - i
  {
    if i + |d| > |s| then None
    else if s[i..i + |d|] == d then Some(i)
    else IndexFrom(s, d, i + 1)
  }

  datatype Split = Split(head: string, remaining: string)

  /** `SplitFirst`: the text before the first `delim`, and after it. */
  function SplitFirst(str: string, delim: string): (r: Split)
    ensures IndexFrom(str, delim, 0).None? ==> r == Split(str, "")
    ensures IndexFrom(str, delim, 0).Some? ==> r.head + delim + r.remaining == str
    ensures forall k | 0 <= k < |r.head| :: !StartsAt(str, delim, k)
  {
    match IndexFrom(str, delim, 0)
    case None => Split(str, "")
    case Some(i) =>
      assert str == str[..i] + delim + str[i + |delim|..];
      Split(str[..i], str[i + |delim|..])
  }

  /** Splitting on a one-character delimiter absent from the head undoes
      the join. */
  lemma {:induction false} SplitFirstJoin(a: string, delim: string, b: string)
    requires |delim| == 1 && delim[0] !in a
    ensures SplitFirst(a + delim + b, delim) == Split(a, b)
  {
    var s := a + delim + b;
    assert StartsAt(s, delim, |a|);
    forall k | 0 <= k < |a| ensures !StartsAt(s, delim, k) {
      assert s[k] == a[k];
    }
    var i := IndexFrom(s, delim, 0);
    assert i == Some(|a|);
    assert s[..|a|] == a;
    assert s[|a| + 1..] == b;
  }

  /** Without the delimiter the whole string comes back. */
  lemma {:induction false} SplitFirstAbsent(a: string, delim: string)
    requires |delim| == 1 && delim[0] !in a
    ensures SplitFirst(a, delim) == Split(a, "")
  {
    forall k | 0 <= k ensures !StartsAt(a, delim, k) {
      if k < |a| {
        assert a[k..k + 1][0] == a[k];
      }
    }
  }

  // ------------------------------------------------------ CamelCased / PascalCased

  predicate IsSeparator(c: char) { c == '_' || c == '-' }

  /** `Regex.Replace(s, "[_-]([a-z])", upper of the letter)`. */
  function Dehyphen(s: string): (r: string)
    ensures |r| <= |s|
  {
    if s == [] then []
    else if |s| >= 2 && IsSeparator(s[0]) && IsLowerAZ(s[1]) then [ToUpperChar(s[1])] + Dehyphen(s[2..])
    else [s[0]] + Dehyphen(s[1..])
  }

  /** No separator is followed by a lower-case letter. */
  predicate NoSeparatedLower(s: string) {
    forall i | 0 <= i < |s| - 1 :: !(IsSeparator(s[i]) && IsLowerAZ(s[i + 1]))
  }

  lemma {:induction false} DehyphenHead(s: string)
    requires Dehyphen(s) != [] && IsLowerAZ(Dehyphen(s)[0])
    ensures s != [] && s[0] == Dehyphen(s)[0]
  {
  }

  /** What the replacement leaves holds no separator before a lower-case letter. */
  lemma {:induction false} DehyphenClean(s: string)
    ensures NoSeparatedLower(Dehyphen(s))
    decreases |s|
  {
    if s == [] {
    } else if |s| >= 2 && IsSeparator(s[0]) && IsLowerAZ(s[1]) {
      DehyphenClean(s[2..]);
      var r := Dehyphen(s);
      forall i | 0 <= i < |r| - 1 ensures !(IsSeparator(r[i]) && IsLowerAZ(r[i + 1])) {
        if i > 0 {
          assert r[i] == Dehyphen(s[2..])[i - 1];
        }
      }
    } else {
      DehyphenClean(s[1..]);
      var t := Dehyphen(s[1..]);
      var r := Dehyphen(s);
      assert r == [s[0]] + t;
      forall i | 0 <= i < |r| - 1 ensures !(IsSeparator(r[i]) && IsLowerAZ(r[i + 1])) {
        if i == 0 && IsSeparator(s[0]) && IsLowerAZ(t[0]) {
          DehyphenHead(s[1..]);
        } else if i > 0 {
          assert r[i] == t[i - 1] && r[i + 1] == t[i];
        }
      }
    }
  }

  /** `CamelCased`: lower-cases the first character and joins separated words. */
  function CamelCased(str: string): (r: string)
    requires str != []
    ensures r != [] && !IsUpperAZ(r[0])
    ensures NoSeparatedLower(r[1..])
  {
    DehyphenClean(str[1..]);
    [ToLowerChar(str[0])] + Dehyphen(str[1..])
  }

  /** `PascalCased`: as `CamelCased`, upper-casing the first character. */
  function PascalCased(str: string): (r: string)
    requires str != []
    ensures r != [] && !IsLowerAZ(r[0])
    ensures NoSeparatedLower(r[1..])
  {
    DehyphenClean(str[1..]);
    [ToUpperChar(str[0])] + Dehyphen(str[1..])
  }

  /** The two casings differ only in the first character. */
  lemma {:induction false} CamelPascalAgree(str: string)
    requires str != []
    ensures CamelCased(str)[1..] == PascalCased(str)[1..]
    ensures CamelCased(str)[0] == ToLowerChar(PascalCased(str)[0])
    ensures PascalCased(str)[0] == ToUpperChar(CamelCased(str)[0])
  {
  }

  lemma {:induction false} DehyphenPlain(s: string)
    requires forall i | 0 <= i < |s| :: !IsSeparator(s[i])
    ensures Dehyphen(s) == s
  {
    if s != [] {
      DehyphenPlain(s[1..]);
      assert s == [s[0]] + s[1..];
    }
  }

  /** A separator before a lower-case letter, after a word without
      separators, becomes that letter upper-cased. */
  lemma {:induction false} DehyphenJoin(a: string, sep: char, x: char, b: string)
    requires forall i | 0 <= i < |a| :: !IsSeparator(a[i])
    requires IsSeparator(sep) && IsLowerAZ(x)
    ensures Dehyphen(a + [sep, x] + b) == a + [ToUpperChar(x)] + Dehyphen(b)
  {
    DehyphenPrefix(a, [sep, x] + b);
    assert a + [sep, x] + b == a + ([sep, x] + b);
    assert ([sep, x] + b)[2..] == b;
  }

  lemma {:induction false} DehyphenPrefix(a: string, b: string)
    requires forall i | 0 <= i < |a| :: !IsSeparator(a[i])
    ensures Dehyphen(a + b) == a + Dehyphen(b)
  {
    if a != [] {
      assert (a + b)[1..] == a[1..] + b;
      DehyphenPrefix(a[1..], b);
      assert a == [a[0]] + a[1..];
    } else {
      assert a + b == b;
    }
  }

  // ------------------------------------------------------ CamelCaseToDashed

  /** The length of the run of upper-case letters `s` starts with. */
  function UpperRun(s: string): (n: nat)
    ensures n <= |s|
    ensures forall i | 0 <= i < n :: IsUpperAZ(s[i])
    ensures n < |s| ==> !IsUpperAZ(s[n])
  {
    if s == [] || !IsUpperAZ(s[0]) then 0 else 1 + UpperRun(s[1..])
  }

  /** What one upper-case run becomes: "-x", or "-xy…-z" splitting off the
      last letter, which starts the next word. */
  function DashRun(v: string): string
    requires v != []
  {
    if |v| == 1 then "-" + v else "-" + Init(v) + "-" + [Last(v)]
  }

  /** `Regex.Replace(str, "([A-Z]+)", DashRun of the lowered run)`. */
  function DashRuns(s: string): (r: string)
    decreases |s|
  {
    if s == [] then []
    else if IsUpperAZ(s[0]) then
      var n := UpperRun(s);
      DashRun(Lower(s[..n])) + DashRuns(s[n..])
    else [s[0]] + DashRuns(s[1..])
  }

  function TrimStartDash(s: string): (r: string)
    ensures r == [] || r[0] != '-'
  {
    if s != [] && s[0] == '-' then TrimStartDash(s[1..]) else s
  }

  /** `CamelCaseToDashed`. */
  function CamelCaseToDashed(str: string): (r: string)
    ensures r == [] || r[0] != '-'
  {
    TrimStartDash(DashRuns(str))
  }

  function RemoveDashes(s: string): (r: string) {
    if s == [] then [] else (if s[0] == '-' then [] else [s[0]]) + RemoveDashes(s[1..])
  }

  predicate NoUpper(s: string) {
    forall i | 0 <= i < |s| :: !IsUpperAZ(s[i])
  }

  lemma {:induction false} RemoveDashesAppend(a: string, b: string)
    ensures RemoveDashes(a + b) == RemoveDashes(a) + RemoveDashes(b)
    decreases |a|
  {
    if a != [] {
      assert (a + b)[1..] == a[1..] + b;
      RemoveDashesAppend(a[1..], b);
    } else {
      assert a + b == b;
    }
  }

  lemma {:induction false} RemoveDashesPlain(s: string)
    requires '-' !in s
    ensures RemoveDashes(s) == s
    decreases |s|
  {
    if s != [] {
      assert s == [s[0]] + s[1..];
      RemoveDashesPlain(s[1..]);
    }
  }

  lemma {:induction false} DashRunLetters(v: string)
    requires v != [] && NoUpper(v) && '-' !in v
    ensures RemoveDashes(DashRun(v)) == v
    ensures NoUpper(DashRun(v))
  {
    if |v| == 1 {
      RemoveDashesAppend("-", v);
      RemoveDashesPlain(v);
    } else {
      DashRunSplit(v);
    }
  }

  lemma {:induction false} DashRunSplit(v: string)
    requires |v| > 1 && NoUpper(v) && '-' !in v
    ensures RemoveDashes(DashRun(v)) == v
    ensures NoUpper(DashRun(v))
  {
    var a := Init(v);
    var z := Last(v);
    assert v == a + [z];
    assert '-' !in a by {
      assert forall x | x in a :: x in v;
    }
    assert RemoveDashes("-") == [];
    assert RemoveDashes([z]) == [z];
    RemoveDashesPlain(a);
    RemoveDashesAppend("-", a);
    RemoveDashesAppend("-" + a, "-");
    RemoveDashesAppend("-" + a + "-", [z]);
    assert DashRun(v) == "-" + a + "-" + [z];
  }

  /** The dashed form spells the lowered string, with dashes only added:
      dropping every dash from both gives the same letters. */
  lemma {:induction false} DashRunsLetters(s: string)
    ensures RemoveDashes(DashRuns(s)) == RemoveDashes(Lower(s))
    ensures NoUpper(DashRuns(s))
    decreases |s|
  {
    if s == [] {
    } else if IsUpperAZ(s[0]) {
      DashRunsLetters(s[UpperRun(s)..]);
      DashRunsUpperStep(s);
    } else {
      DashRunsLetters(s[1..]);
      DashRunsPlainStep(s);
    }
  }

  /** `DashRunsLetters` for a string opening with a run of capitals, given
      it for what follows the run. */
  lemma {:induction false} DashRunsUpperStep(s: string)
    requires s != [] && IsUpperAZ(s[0])
    requires RemoveDashes(DashRuns(s[UpperRun(s)..])) == RemoveDashes(Lower(s[UpperRun(s)..]))
    requires NoUpper(DashRuns(s[UpperRun(s)..]))
    ensures RemoveDashes(DashRuns(s)) == RemoveDashes(Lower(s))
    ensures NoUpper(DashRuns(s))
  {
    var n := UpperRun(s);
    var v := Lower(s[..n]);
    assert '-' !in v by {
      forall i | 0 <= i < |v| ensures v[i] != '-' {
        assert IsUpperAZ(s[..n][i]);
      }
    }
    DashRunLetters(v);
    RemoveDashesAppend(DashRun(v), DashRuns(s[n..]));
    assert Lower(s) == v + Lower(s[n..]);
    RemoveDashesAppend(v, Lower(s[n..]));
    RemoveDashesPlain(v);
    var r := DashRuns(s);
    forall i | 0 <= i < |r| ensures !IsUpperAZ(r[i]) {
      if i >= |DashRun(v)| {
        assert r[i] == DashRuns(s[n..])[i - |DashRun(v)|];
      }
    }
  }

  /** `DashRunsLetters` for a string opening with anything but a capital,
      given it for the rest. */
  lemma {:induction false} DashRunsPlainStep(s: string)
    requires s != [] && !IsUpperAZ(s[0])
    requires RemoveDashes(DashRuns(s[1..])) == RemoveDashes(Lower(s[1..]))
    requires NoUpper(DashRuns(s[1..]))
    ensures RemoveDashes(DashRuns(s)) == RemoveDashes(Lower(s))
    ensures NoUpper(DashRuns(s))
  {
    assert DashRuns(s) == [s[0]] + DashRuns(s[1..]);
    assert Lower(s) == [s[0]] + Lower(s[1..]);
    RemoveDashesAppend([s[0]], DashRuns(s[1..]));
    RemoveDashesAppend([s[0]], Lower(s[1..]));
    var r := DashRuns(s);
    forall i | 0 <= i < |r| ensures !IsUpperAZ(r[i]) {
      if i > 0 {
        assert r[i] == DashRuns(s[1..])[i - 1];
      }
    }
  }

  lemma {:induction false} TrimStartDashLetters(s: string)
    ensures RemoveDashes(TrimStartDash(s)) == RemoveDashes(s)
    ensures NoUpper(s) ==> NoUpper(TrimStartDash(s))
    decreases |s|
  {
    if s != [] && s[0] == '-' {
      TrimStartDashLetters(s[1..]);
      assert NoUpper(s) ==> NoUpper(s[1..]) by {
        if NoUpper(s) {
          forall i | 0 <= i < |s| - 1 ensures !IsUpperAZ(s[1..][i]) {
            assert s[1..][i] == s[i + 1];
          }
        }
      }
    }
  }

  /** `CamelCaseToDashed` lowers every letter and only inserts dashes. */
  lemma {:induction false} CamelCaseToDashedLetters(s: string)
    ensures RemoveDashes(CamelCaseToDashed(s)) == RemoveDashes(Lower(s))
    ensures NoUpper(CamelCaseToDashed(s))
  {
    DashRunsLetters(s);
    TrimStartDashLetters(DashRuns(s));
  }

  lemma {:induction false} DashRunsPlain(s: string)
    requires NoUpper(s)
    ensures DashRuns(s) == s
  {
    if s != [] {
      assert NoUpper(s[1..]) by {
        forall i | 0 <= i < |s| - 1 ensures !IsUpperAZ(s[1..][i]) {
          assert s[1..][i] == s[i + 1];
        }
      }
      DashRunsPlain(s[1..]);
      assert s == [s[0]] + s[1..];
    }
  }

  lemma {:induction false} UpperRunExample()
    ensures UpperRun("ABBRProp") == 5
  {
    assert UpperRun("rop") == 0;
    assert UpperRun("Prop") == 1 + UpperRun("rop");
    assert UpperRun("RProp") == 1 + UpperRun("Prop");
    assert UpperRun("BRProp") == 1 + UpperRun("RProp");
    assert UpperRun("BBRProp") == 1 + UpperRun("BRProp");
    assert UpperRun("ABBRProp") == 1 + UpperRun("BBRProp");
  }

  lemma {:induction false} DashRunsExample()
    ensures DashRuns("ABBRProp") == "-abbr-p" + "rop"
  {
    var s := "ABBRProp";
    UpperRunExample();
    assert s[..5] == "ABBRP" && s[5..] == "rop";
    assert Lower("ABBRP") == "abbrp";
    DashRunsPlain("rop");
    assert DashRun("abbrp") == "-abbr-p";
  }

  /** The leading dash of the example is trimmed. */
  lemma {:induction false} TrimDashExample()
    ensures TrimStartDash("-abbr-p" + "rop") == "abbr-prop"
  {
    assert "-abbr-p" + "rop" == "-abbr-prop";
  }

  /** The tests' example: an abbreviation splits off the letter that starts
      the next word, "ABBRProp" becoming "abbr-prop". */
  lemma {:induction false} DashedExample()
    ensures CamelCaseToDashed("ABBRProp") == "abbr-prop"
  {
    DashRunsExample();
    TrimDashExample();
  }

  // ------------------------------------------------------ DistinctBy

  /** `GroupBy(key).Select(g => g.First())`: the first element of each key,
      in order of first occurrence. */
  function DistinctBy<T, K(==)>(s: seq<T>, key: T -> K): (r: seq<T>)
    ensures |r| <= |s|
    ensures forall i, j | 0 <= i < j < |r| :: key(r[i]) != key(r[j])
  {
    if s == [] then []
    else
      var r := DistinctBy(Init(s), key);
      if exists j | 0 <= j < |r| :: key(r[j]) == key(Last(s)) then r else r + [Last(s)]
  }

  /** Every key of the input is kept. */
  lemma {:induction false} DistinctByCovers<T, K>(s: seq<T>, key: T -> K)
    ensures forall i | 0 <= i < |s| :: exists k | 0 <= k < |DistinctBy(s, key)| :: key(DistinctBy(s, key)[k]) == key(s[i])
  {
    if s != [] {
      var p := Init(s);
      var r := DistinctBy(p, key);
      DistinctByCovers(p, key);
      var r' := DistinctBy(s, key);
      forall i | 0 <= i < |s| ensures exists k | 0 <= k < |r'| :: key(r'[k]) == key(s[i]) {
        if i < |p| {
          assert s[i] == p[i];
          var k :| 0 <= k < |r| && key(r[k]) == key(p[i]);
          assert r'[k] == r[k];
        } else if exists j | 0 <= j < |r| :: key(r[j]) == key(Last(s)) {
          var k :| 0 <= k < |r| && key(r[k]) == key(Last(s));
          assert r'[k] == r[k];
        } else {
          assert r'[|r|] == s[i];
        }
      }
      assert r' == DistinctBy(s, key);
      assert forall i | 0 <= i < |s| :: exists k | 0 <= k < |DistinctBy(s, key)| :: key(DistinctBy(s, key)[k]) == key(s[i]);
    }
  }

  /** `x` sits in `s` at an index where its key appears for the first time. */
  ghost predicate KeptFirst<T, K>(s: seq<T>, key: T -> K, x: T) {
    exists i | 0 <= i < |s| :: s[i] == x && FirstOfKey(s, key, i)
  }

  ghost predicate FirstOfKey<T, K>(s: seq<T>, key: T -> K, i: nat)
    requires i < |s|
  {
    forall j | 0 <= j < i :: key(s[j]) != key(s[i])
  }

  /** Every element kept is the first of its key in the input. */
  lemma {:induction false} DistinctByFirst<T, K>(s: seq<T>, key: T -> K)
    ensures forall k | 0 <= k < |DistinctBy(s, key)| :: KeptFirst(s, key, DistinctBy(s, key)[k])
  {
    if s != [] {
      var p := Init(s);
      var r := DistinctBy(p, key);
      DistinctByFirst(p, key);
      DistinctByCovers(p, key);
      var r' := DistinctBy(s, key);
      forall k | 0 <= k < |r'| ensures KeptFirst(s, key, r'[k]) {
        if k < |r| {
          assert r'[k] == r[k];
          KeptFirstGrows(s, key, r[k]);
        } else {
          assert r' == r + [Last(s)];
          forall j | 0 <= j < |s| - 1 ensures key(s[j]) != key(Last(s)) {
            assert s[j] == p[j];
            var k2 :| 0 <= k2 < |r| && key(r[k2]) == key(p[j]);
          }
          KeptFirstLast(s, key);
        }
      }
    }
  }

  lemma {:induction false} KeptFirstGrows<T, K>(s: seq<T>, key: T -> K, x: T)
    requires s != [] && KeptFirst(Init(s), key, x)
    ensures KeptFirst(s, key, x)
  {
    var i :| 0 <= i < |Init(s)| && Init(s)[i] == x && FirstOfKey(Init(s), key, i);
    assert forall j | 0 <= j <= i :: s[j] == Init(s)[j];
    assert s[i] == x && FirstOfKey(s, key, i);
  }

  lemma {:induction false} KeptFirstLast<T, K>(s: seq<T>, key: T -> K)
    requires s != [] && forall j | 0 <= j < |s| - 1 :: key(s[j]) != key(Last(s))
    ensures KeptFirst(s, key, Last(s))
  {
    assert s[|s| - 1] == Last(s) && FirstOfKey(s, key, |s| - 1);
  }

  /** The index in `s` where key `x` first occurs, or `|s|` when it does not. */
  ghost function FirstAt<T, K>(s: seq<T>, key: T -> K, x: K): (f: nat)
    ensures f <= |s|
    ensures forall j | 0 <= j < f :: key(s[j]) != x
    ensures f < |s| ==> key(s[f]) == x
  {
    if s == [] then 0
    else if key(s[0]) == x then 0
    else
      var f' := FirstAt(s[1..], key, x);
      assert forall j | 1 <= j < f' + 1 :: s[j] == s[1..][j - 1];
      f' + 1
  }

  lemma {:induction false} FirstAtIs<T, K>(s: seq<T>, key: T -> K, i: nat)
    requires i < |s| && FirstOfKey(s, key, i)
    ensures FirstAt(s, key, key(s[i])) == i
  {
  }

  /** A key already kept from `Init(s)` first occurs at the same index in `s`. */
  lemma {:induction false} FirstAtKept<T, K>(s: seq<T>, key: T -> K, k: nat)
    requires s != [] && k < |DistinctBy(Init(s), key)|
    ensures FirstAt(s, key, key(DistinctBy(Init(s), key)[k])) == FirstAt(Init(s), key, key(DistinctBy(Init(s), key)[k])) < |s| - 1
  {
    var p := Init(s);
    var r := DistinctBy(p, key);
    DistinctByFirst(p, key);
    assert KeptFirst(p, key, r[k]);
    var i :| 0 <= i < |p| && p[i] == r[k] && FirstOfKey(p, key, i);
    FirstAtIs(p, key, i);
    assert forall j | 0 <= j <= i :: s[j] == p[j];
    assert FirstOfKey(s, key, i);
    FirstAtIs(s, key, i);
  }

  /** An appended last element is the first of its key in `s`. */
  lemma {:induction false} FirstAtAppended<T, K>(s: seq<T>, key: T -> K)
    requires s != []
    requires !exists j | 0 <= j < |DistinctBy(Init(s), key)| :: key(DistinctBy(Init(s), key)[j]) == key(Last(s))
    ensures FirstAt(s, key, key(Last(s))) == |s| - 1
  {
    var p := Init(s);
    var r := DistinctBy(p, key);
    DistinctByCovers(p, key);
    forall j | 0 <= j < |p| ensures key(s[j]) != key(Last(s)) {
      assert s[j] == p[j];
      var k3 :| 0 <= k3 < |r| && key(r[k3]) == key(p[j]);
    }
    assert s[|p|] == Last(s) && FirstOfKey(s, key, |p|);
    FirstAtIs(s, key, |p|);
  }

  /** The kept elements are in the order in which their keys first occur
      in the input. */
  lemma {:induction false} DistinctByOrder<T, K>(s: seq<T>, key: T -> K)
    ensures forall k1, k2 | 0 <= k1 < k2 < |DistinctBy(s, key)| ::
      FirstAt(s, key, key(DistinctBy(s, key)[k1])) < FirstAt(s, key, key(DistinctBy(s, key)[k2]))
  {
    if s != [] {
      var p := Init(s);
      var r := DistinctBy(p, key);
      var r' := DistinctBy(s, key);
      DistinctByOrder(p, key);
      forall k1, k2 | 0 <= k1 < k2 < |r'|
        ensures FirstAt(s, key, key(r'[k1])) < FirstAt(s, key, key(r'[k2]))
      {
        assert r'[k1] == r[k1];
        FirstAtKept(s, key, k1);
        if k2 < |r| {
          assert r'[k2] == r[k2];
          FirstAtKept(s, key, k2);
        } else {
          assert r' == r + [Last(s)] && r'[k2] == Last(s);
          FirstAtAppended(s, key);
        }
      }
    }
  }

  // ------------------------------------------------------ string.Split and string.Join

  /** `string.Split(c)`: the pieces between the separators. */
  function SplitOn(s: string, c: char): (r: seq<string>)
    ensures r != []
  {
    if s == [] then [""]
    else
      var rest := SplitOn(s[1..], c);
      if s[0] == c then [""] + rest else [[s[0]] + rest[0]] + rest[1..]
  }

  /** `string.Join(c, pieces)`: the first piece leads, and the separator
      follows it when there is more than one. */
  function JoinWith(pieces: seq<string>, c: char): (r: string)
    ensures pieces == [] ==> r == ""
    ensures pieces != [] ==> |r| >= |pieces[0]| + |pieces| - 1 && r[..|pieces[0]|] == pieces[0]
    ensures |pieces| > 1 ==> |r| > |pieces[0]| && r[|pieces[0]|] == c
  {
    if pieces == [] then ""
    else if |pieces| == 1 then pieces[0]
    else pieces[0] + [c] + JoinWith(pieces[1..], c)
  }

  lemma {:induction false} SplitOnPlain(a: string, c: char)
    requires c !in a
    ensures SplitOn(a, c) == [a]
  {
    if a != [] {
      SplitOnPlain(a[1..], c);
      assert a == [a[0]] + a[1..];
    }
  }

  lemma {:induction false} SplitOnFirst(a: string, c: char, rest: string)
    requires c !in a
    ensures SplitOn(a + [c] + rest, c) == [a] + SplitOn(rest, c)
  {
    if a == [] {
      assert a + [c] + rest == [c] + rest;
      assert ([c] + rest)[1..] == rest;
    } else {
      assert (a + [c] + rest)[1..] == a[1..] + [c] + rest;
      SplitOnFirst(a[1..], c, rest);
      assert a == [a[0]] + a[1..];
    }
  }

  /** Splitting undoes joining pieces that hold no separator. */
  lemma {:induction false} SplitJoin(pieces: seq<string>, c: char)
    requires pieces != [] && forall x | x in pieces :: c !in x
    ensures SplitOn(JoinWith(pieces, c), c) == pieces
  {
    if |pieces| == 1 {
      SplitOnPlain(pieces[0], c);
    } else {
      assert forall x | x in pieces[1..] :: x in pieces;
      SplitJoin(pieces[1..], c);
      SplitOnFirst(pieces[0], c, JoinWith(pieces[1..], c));
      assert pieces == [pieces[0]] + pieces[1..];
    }
  }

  lemma {:induction false} SplitOnClean(s: string, c: char)
    ensures forall x | x in SplitOn(s, c) :: c !in x
  {
    if s != [] {
      SplitOnClean(s[1..], c);
      var rest := SplitOn(s[1..], c);
      if s[0] != c {
        assert rest[0] in rest;
        assert forall x | x in rest[1..] :: x in rest;
      }
    }
  }
}
