/**
 * The few pieces of the Java platform library that the task manager relies on:
 * 32-bit `int` arithmetic, `String.trim`, `String.equalsIgnoreCase` and
 * `String.hashCode`. Strings are sequences of Dafny characters; Java works on
 * UTF-16 code units, which agree with them for every character of the Basic
 * Multilingual Plane.
 */
module JavaLang {

  /** Java's `int`. */
  type Int32 = x: int | -0x8000_0000 <= x < 0x8000_0000

  /** Two's-complement wrap-around of an exact result into an `int`. */
  function Wrap32(x: int): (r: Int32)
    ensures (r - x) % 0x1_0000_0000 == 0
    ensures -0x8000_0000 <= x < 0x8000_0000 ==> r == x
  {
    (x + 0x8000_0000) % 0x1_0000_0000 - 0x8000_0000
  }

  /** The characters `String.trim()` strips from both ends: every code point up to U+0020. */
  predicate IsTrimmable(c: char) {
    c <= ' '
  }

  /** `s` with its leading trimmable characters removed. */
  function TrimStart(s: string): (r: string)
    ensures |r| <= |s| && r == s[|s| - |r|..]
    ensures forall k :: 0 <= k < |s| - |r| ==> IsTrimmable(s[k])
    ensures r != [] ==> !IsTrimmable(r[0])
  {
    if s != [] && IsTrimmable(s[0]) then TrimStart(s[1..]) else s
  }

  /** `s` with its trailing trimmable characters removed. */
  function TrimEnd(s: string): (r: string)
    ensures |r| <= |s| && r == s[..|r|]
    ensures forall k :: |r| <= k < |s| ==> IsTrimmable(s[k])
    ensures r != [] ==> !IsTrimmable(r[|r| - 1])
  {
    if s != [] && IsTrimmable(s[|s| - 1]) then TrimEnd(s[..|s| - 1]) else s
  }

  /** `String.trim()`: leading characters are stripped first, then trailing ones. */
  function Trim(s: string): (r: string)
    ensures r != [] ==> !IsTrimmable(r[0]) && !IsTrimmable(r[|r| - 1])
    ensures r == [] <==> forall k :: 0 <= k < |s| ==> IsTrimmable(s[k])
    ensures exists i, j :: 0 <= i <= j <= |s| && r == s[i..j]
                           && (forall k :: 0 <= k < i ==> IsTrimmable(s[k]))
                           && (forall k :: j <= k < |s| ==> IsTrimmable(s[k]))
  {
    var front := TrimStart(s);
    var r := TrimEnd(front);
    // An empty result means the leading pass already consumed everything.
    assert r == [] ==> front == [];
    var i := |s| - |front|;
    var j := i + |r|;
    assert r == s[i..j] && forall k :: j <= k < |s| ==> s[k] == front[k - i];
    r
  }

  /** Trimming a trimmed string changes nothing. */
  lemma TrimIdempotent(s: string)
    ensures Trim(Trim(s)) == Trim(s)
  {
    var t := Trim(s);
    if t != [] {
      assert TrimStart(t) == t;
      assert TrimEnd(t) == t;
    }
  }

  /** A string that has nothing to trim is its own trimmed form. */
  lemma TrimOfUnpadded(s: string)
    requires s != [] ==> !IsTrimmable(s[0]) && !IsTrimmable(s[|s| - 1])
    ensures Trim(s) == s
  {
    if s != [] {
      assert TrimStart(s) == s;
      assert TrimEnd(s) == s;
    }
  }

  /** `Character.toUpperCase`, for the ASCII letters. */
  function UpperAscii(c: char): char {
    if 'a' <= c <= 'z' then (c as int - 32) as char else c
  }

  /** `Character.toLowerCase`, for the ASCII letters. */
  function LowerAscii(c: char): char {
    if 'A' <= c <= 'Z' then (c as int + 32) as char else c
  }

  /** One step of `String.regionMatches(true, ...)`: equal, equal upper case, or equal lower case of the upper case. */
  predicate CharEqualsIgnoreCase(c1: char, c2: char) {
    c1 == c2
    || UpperAscii(c1) == UpperAscii(c2)
    || LowerAscii(UpperAscii(c1)) == LowerAscii(UpperAscii(c2))
  }

  /** `a.equalsIgnoreCase(b)` for a non-null `b`. */
  predicate EqualsIgnoreCase(a: string, b: string) {
    |a| == |b| && forall k :: 0 <= k < |a| ==> CharEqualsIgnoreCase(a[k], b[k])
  }

  /** Which names `"All".equalsIgnoreCase(name)` accepts: the eight spellings of "all" in mixed case. */
  lemma EqualsIgnoreCaseAll(name: string)
    ensures EqualsIgnoreCase("All", name) <==>
              |name| == 3 && name[0] in "aA" && name[1] in "lL" && name[2] in "lL"
  {
    if |name| == 3 {
      assert CharEqualsIgnoreCase('A', name[0]) <==> name[0] in "aA";
      assert CharEqualsIgnoreCase('l', name[1]) <==> name[1] in "lL";
      assert CharEqualsIgnoreCase('l', name[2]) <==> name[2] in "lL";
    }
  }

  /** `String.hashCode()`: h = 31 * h + c over the characters, in `int` arithmetic. */
  function StringHashCode(s: string): Int32
  {
    if s == [] then 0 else Wrap32(31 * StringHashCode(s[..|s| - 1]) + s[|s| - 1] as int)
  }

  /** `Objects.hash(x)` of a single non-null value whose own hash code is `h`: 31 * 1 + h. */
  function ObjectsHash1(h: Int32): Int32
  {
    Wrap32(31 + h)
  }
}
