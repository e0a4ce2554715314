/**
 * The Python `str` operations job_mailer.py relies on, over `seq<char>`:
 * `strip()` and `strip(chars)`, `split(sep)` with a one-character separator,
 * `replace` of one character by another, `capitalize()` and `isalpha()`.
 * Letter tests and case mapping cover ASCII letters only.
 */
module PyStr {

  /** `c.isspace()`: the characters that `str.strip()` without arguments removes. */
  predicate IsSpace(c: char) {
    var n := c as int;
    n == 0x20 || 0x09 <= n <= 0x0D || 0x1C <= n <= 0x1F || n == 0x85 || n == 0xA0 ||
    n == 0x1680 || 0x2000 <= n <= 0x200A || n == 0x2028 || n == 0x2029 ||
    n == 0x202F || n == 0x205F || n == 0x3000
  }

  predicate IsComma(c: char) {
    c == ','
  }

  /** Drops the longest prefix whose characters all satisfy `drop`. */
  function TrimStart(s: string, drop: char -> bool): (r: string)
    ensures |r| <= |s| && r == s[|s| - |r|..]
    ensures forall k :: 0 <= k < |s| - |r| ==> drop(s[k])
    ensures r != [] ==> !drop(r[0])
  {
    if s != [] && drop(s[0]) then TrimStart(s[1..], drop) else s
  }

  /** Drops the longest suffix whose characters all satisfy `drop`. */
  function TrimEnd(s: string, drop: char -> bool): (r: string)
    ensures |r| <= |s| && r == s[..|r|]
    ensures forall k :: |r| <= k < |s| ==> drop(s[k])
    ensures r != [] ==> !drop(r[|r| - 1])
  {
    if s != [] && drop(s[|s| - 1]) then TrimEnd(s[..|s| - 1], drop) else s
  }

  /** `s.strip(chars)`, where `drop` says which characters belong to `chars`. */
  function StripWith(s: string, drop: char -> bool): (r: string)
    ensures |r| <= |s|
    ensures r != [] ==> !drop(r[0]) && !drop(r[|r| - 1])
    ensures r == [] <==> forall k :: 0 <= k < |s| ==> drop(s[k])
  {
    var t := TrimStart(s, drop);
    assert t != [] ==> !drop(s[|s| - |t|]);
    TrimEnd(t, drop)
  }

  /** `s.strip()` */
  function Strip(s: string): string {
    StripWith(s, IsSpace)
  }

  /** `s.strip(",")` */
  function StripCommas(s: string): string {
    StripWith(s, IsComma)
  }

  lemma TrimStartExactly(s: string, drop: char -> bool, i: nat)
    requires i <= |s|
    requires forall k :: 0 <= k < i ==> drop(s[k])
    requires i < |s| ==> !drop(s[i])
    ensures TrimStart(s, drop) == s[i..]
  {
    var t := TrimStart(s, drop);
    if t != [] {
      assert t[0] == s[|s| - |t|];
    }
  }

  lemma TrimEndExactly(s: string, drop: char -> bool, i: nat, j: nat)
    requires i <= j <= |s|
    requires forall k :: j <= k < |s| ==> drop(s[k])
    requires i < j ==> !drop(s[j - 1])
    ensures TrimEnd(s[i..], drop) == s[i..j]
  {
    var r := TrimEnd(s[i..], drop);
    if r != [] {
      assert r[|r| - 1] == s[i + |r| - 1];
    }
  }

  /**
   * Strip keeps exactly the infix between the dropped prefix and the dropped
   * suffix: any cut s[..i] / s[i..j] / s[j..] whose outer parts are all dropped
   * and whose middle neither starts nor ends with a dropped character is it.
   */
  lemma StripWithExactly(s: string, drop: char -> bool, i: nat, j: nat)
    requires i <= j <= |s|
    requires forall k :: 0 <= k < i ==> drop(s[k])
    requires forall k :: j <= k < |s| ==> drop(s[k])
    requires i < j ==> !drop(s[i]) && !drop(s[j - 1])
    ensures StripWith(s, drop) == s[i..j]
  {
    if i < j {
      TrimStartExactly(s, drop, i);
      TrimEndExactly(s, drop, i, j);
    } else {
      TrimStartExactly(s, drop, |s|);
    }
  }

  /** Stripping twice strips no more than stripping once. */
  lemma StripWithIdempotent(s: string, drop: char -> bool)
    ensures StripWith(StripWith(s, drop), drop) == StripWith(s, drop)
  {
    var r := StripWith(s, drop);
    StripWithExactly(r, drop, 0, |r|);
  }

  /** `sep.join(parts)`, the inverse of Split: the parts glued back with `sep` between them. */
  function Join(parts: seq<string>, sep: char): string
    requires |parts| >= 1
  {
    if |parts| == 1 then parts[0] else parts[0] + [sep] + Join(parts[1..], sep)
  }

  /** `s.split(sep)` for a one-character separator: never an empty list. */
  function Split(s: string, sep: char): (parts: seq<string>)
    ensures |parts| >= 1
    ensures forall i :: 0 <= i < |parts| ==> sep !in parts[i]
  {
    if s == [] then [[]]
    else
      var rest := Split(s[1..], sep);
      if s[0] == sep then [[]] + rest
      else
        var parts := [[s[0]] + rest[0]] + rest[1..];
        assert parts[1..] == rest[1..];
        parts
  }

  /** Joining the parts of a split with the same separator gives the text back. */
  lemma {:induction false} JoinSplit(s: string, sep: char)
    ensures Join(Split(s, sep), sep) == s
  {
    if s != [] {
      JoinSplit(s[1..], sep);
      assert s == [s[0]] + s[1..];
    }
  }

  lemma {:induction false} SplitNoSeparator(p: string, sep: char)
    requires sep !in p
    ensures Split(p, sep) == [p]
  {
    if p != [] {
      SplitNoSeparator(p[1..], sep);
      assert [p[0]] + p[1..] == p;
    }
  }

  lemma {:induction false} SplitAtSeparator(p: string, sep: char, t: string)
    requires sep !in p
    ensures Split(p + [sep] + t, sep) == [p] + Split(t, sep)
  {
    var s := p + [sep] + t;
    if p == [] {
      assert s[1..] == t;
    } else {
      assert s[1..] == p[1..] + [sep] + t;
      SplitAtSeparator(p[1..], sep, t);
      var rest := Split(s[1..], sep);
      assert rest[0] == p[1..] && rest[1..] == Split(t, sep);
      assert [p[0]] + p[1..] == p;
    }
  }

  /** Splitting a join of separator-free parts gives the parts back. */
  lemma {:induction false} SplitJoin(parts: seq<string>, sep: char)
    requires |parts| >= 1
    requires forall i :: 0 <= i < |parts| ==> sep !in parts[i]
    ensures Split(Join(parts, sep), sep) == parts
  {
    if |parts| == 1 {
      SplitNoSeparator(parts[0], sep);
    } else {
      SplitJoin(parts[1..], sep);
      SplitAtSeparator(parts[0], sep, Join(parts[1..], sep));
    }
  }

  /** `s.replace(target, replacement)` for single characters. */
  function Replace(s: string, target: char, replacement: char): (r: string)
    ensures |r| == |s|
    ensures forall i :: 0 <= i < |s| ==> r[i] == (if s[i] == target then replacement else s[i])
  {
    if s == [] then []
    else [if s[0] == target then replacement else s[0]] + Replace(s[1..], target, replacement)
  }

  predicate IsUpper(c: char) {
    'A' <= c <= 'Z'
  }

  predicate IsLower(c: char) {
    'a' <= c <= 'z'
  }

  predicate IsLetter(c: char) {
    IsUpper(c) || IsLower(c)
  }

  function ToLower(c: char): (l: char)
    ensures IsLetter(c) ==> IsLower(l)
    ensures !IsUpper(c) ==> l == c
    ensures IsLetter(l) == IsLetter(c)
  {
    if IsUpper(c) then (c as int + 32) as char else c
  }

  function ToUpper(c: char): (u: char)
    ensures IsLetter(c) ==> IsUpper(u)
    ensures !IsLower(c) ==> u == c
    ensures IsLetter(u) == IsLetter(c)
    ensures ToLower(u) == ToLower(c)
  {
    if IsLower(c) then (c as int - 32) as char else c
  }

  /** `s.lower()` */
  function Lower(s: string): (r: string)
    ensures |r| == |s|
    ensures forall i :: 0 <= i < |s| ==> r[i] == ToLower(s[i])
  {
    if s == [] then [] else [ToLower(s[0])] + Lower(s[1..])
  }

  /**
   * `s.capitalize()`: the same text up to case, the first letter upper-case
   * and every later letter lower-case.
   */
  function Capitalize(s: string): (r: string)
    ensures |r| == |s|
    ensures forall i :: 0 <= i < |s| ==> IsLetter(r[i]) == IsLetter(s[i]) && ToLower(r[i]) == ToLower(s[i])
    ensures s != [] && IsLetter(s[0]) ==> IsUpper(r[0])
    ensures forall i :: 1 <= i < |s| && IsLetter(s[i]) ==> IsLower(r[i])
    ensures forall i :: 0 <= i < |s| && !IsLetter(s[i]) ==> r[i] == s[i]
  {
    if s == [] then [] else [ToUpper(s[0])] + Lower(s[1..])
  }

  /** Capitalize on a lower-case word, checked letter by letter against its expected result. */
  lemma CapitalizeWord(s: string, expected: string)
    requires |s| == |expected| > 0
    requires IsLower(s[0]) && IsUpper(expected[0]) && expected[0] as int == s[0] as int - 32
    requires forall i :: 1 <= i < |s| ==> IsLower(s[i]) && expected[i] == s[i]
    ensures Capitalize(s) == expected
  {
    var r := Capitalize(s);
    assert r[0] == expected[0];
    forall i | 1 <= i < |s| ensures r[i] == expected[i] {
      assert r[i] == Lower(s[1..])[i - 1];
    }
  }

  /** `s.isalpha()`: non-empty and letters only. */
  predicate IsAlpha(s: string) {
    s != [] && forall i :: 0 <= i < |s| ==> IsLetter(s[i])
  }
}
