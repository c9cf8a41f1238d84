/**
 * The few java.lang.String operations the forwarder relies on, with the
 * semantics of the JDK: isBlank, trim, split on a one-character separator,
 * case-insensitive comparison of header names, and the length of the UTF-8
 * encoding. A Dafny `char` is a Unicode scalar value, so a string is a
 * sequence of code points.
 */
module JavaText {

  // ---------------------------------------------------------------- isBlank

  /** Character.isWhitespace: the Unicode space, line and paragraph separators
      other than the no-break spaces U+00A0, U+2007 and U+202F, plus the
      controls U+0009..U+000D and U+001C..U+001F. */
  predicate IsWhitespace(c: char) {
    || ('\t' <= c <= '\r')
    || ('\U{1C}' <= c <= ' ')
    || c == '\U{1680}'
    || ('\U{2000}' <= c <= '\U{2006}')
    || ('\U{2008}' <= c <= '\U{200A}')
    || c == '\U{2028}' || c == '\U{2029}'
    || c == '\U{205F}' || c == '\U{3000}'
  }

  /** String.isBlank: empty, or whitespace code points only. */
  predicate IsBlank(s: string) {
    s == [] || (IsWhitespace(s[0]) && IsBlank(s[1..]))
  }

  // ------------------------------------------------------------------- trim

  /** String.trim strips every leading and trailing char at or below U+0020. */
  predicate Trimmable(c: char) {
    c <= ' '
  }

  /** Index of the first char that trim keeps (String.trim's `st`). */
  function TrimStart(s: string): (lo: nat)
    ensures lo <= |s|
    ensures forall i :: 0 <= i < lo ==> Trimmable(s[i])
    ensures lo < |s| ==> !Trimmable(s[lo])
  {
    if |s| > 0 && Trimmable(s[0]) then 1 + TrimStart(s[1..]) else 0
  }

  /** One past the last char that trim keeps, never below `lo` (String.trim's `len`). */
  function TrimEnd(s: string, lo: nat): (hi: nat)
    requires lo <= |s|
    ensures lo <= hi <= |s|
    ensures forall i :: hi <= i < |s| ==> Trimmable(s[i])
    ensures lo < hi ==> !Trimmable(s[hi - 1])
    decreases |s|
  {
    if lo < |s| && Trimmable(s[|s| - 1]) then TrimEnd(s[..|s| - 1], lo) else |s|
  }

  /** String.trim. */
  function Trim(s: string): (r: string)
    ensures |r| <= |s|
    ensures r == [] || (!Trimmable(r[0]) && !Trimmable(r[|r| - 1]))
    ensures (forall i :: 0 <= i < |s| ==> Trimmable(s[i])) ==> r == []
    ensures s == [] || (!Trimmable(s[0]) && !Trimmable(s[|s| - 1])) ==> r == s
  {
    var lo := TrimStart(s);
    var hi := TrimEnd(s, lo);
    s[lo..hi]
  }

  /** Every char of Trim(s) is in s at the same relative place: it is the
      slice of s between the trimmed margins. */
  lemma TrimIsSlice(s: string)
    ensures exists lo: nat, hi: nat {:trigger s[lo..hi]} ::
              lo <= hi <= |s| && Trim(s) == s[lo..hi]
              && (forall i :: 0 <= i < lo ==> Trimmable(s[i]))
              && (forall i :: hi <= i < |s| ==> Trimmable(s[i]))
  {
    var lo := TrimStart(s);
    var hi := TrimEnd(s, lo);
    assert Trim(s) == s[lo..hi];
  }

  // ------------------------------------------------------------------ split

  /** The text of s before the first `sep`, or all of s when there is none. */
  function UpTo(s: string, sep: char): (r: string)
    ensures |r| <= |s| && r == s[..|r|]
    ensures sep !in r
    ensures |r| < |s| ==> s[|r|] == sep
  {
    if |s| == 0 || s[0] == sep then "" else [s[0]] + UpTo(s[1..], sep)
  }

  /** All the pieces of s between occurrences of `sep`, empty ones included:
      one more piece than there are separators. */
  function Pieces(s: string, sep: char): (r: seq<string>)
    ensures |r| >= 1
  {
    if |s| == 0 then [""]
    else if s[0] == sep then [""] + Pieces(s[1..], sep)
    else
      var rest := Pieces(s[1..], sep);
      [[s[0]] + rest[0]] + rest[1..]
  }

  /** The longest prefix of `parts` that does not end in an empty string. */
  function DropTrailingEmpty(parts: seq<string>): (r: seq<string>)
    ensures |r| <= |parts| && r == parts[..|r|]
    ensures r == [] || r[|r| - 1] != ""
    ensures forall i :: |r| <= i < |parts| ==> parts[i] == ""
  {
    if |parts| > 0 && parts[|parts| - 1] == "" then DropTrailingEmpty(parts[..|parts| - 1])
    else parts
  }

  /** String.split(regex) with limit 0 for a regex that is one ordinary
      character: no match gives the string itself, otherwise the pieces
      with trailing empty strings removed. */
  function Split(s: string, sep: char): seq<string> {
    if sep !in s then [s] else DropTrailingEmpty(Pieces(s, sep))
  }

  predicate AllEmpty(parts: seq<string>) {
    forall k :: 0 <= k < |parts| ==> parts[k] == ""
  }

  predicate AllSeparators(s: string, sep: char) {
    forall i :: 0 <= i < |s| ==> s[i] == sep
  }

  /** s is non-empty and made of separators only. */
  predicate OnlySeparators(s: string, sep: char) {
    |s| > 0 && AllSeparators(s, sep)
  }

  lemma {:induction false} PiecesAllEmpty(s: string, sep: char)
    ensures AllEmpty(Pieces(s, sep)) <==> AllSeparators(s, sep)
  {
    if |s| > 0 {
      PiecesAllEmpty(s[1..], sep);
      var p := Pieces(s, sep);
      var q := Pieces(s[1..], sep);
      assert forall i :: 0 <= i < |s[1..]| ==> s[1..][i] == s[i + 1];
      if s[0] == sep {
        assert p == [""] + q;
        assert forall k :: 0 <= k < |q| ==> q[k] == p[k + 1];
        assert AllSeparators(s, sep) <==> AllSeparators(s[1..], sep);
        assert AllEmpty(p) <==> AllEmpty(q);
      } else {
        assert p[0] != "";
      }
    }
  }

  /** split(",") is empty, so that split(",")[0] throws, exactly on a
      non-empty run of separators. */
  lemma SplitEmpty(s: string, sep: char)
    ensures Split(s, sep) == [] <==> OnlySeparators(s, sep)
  {
    PiecesAllEmpty(s, sep);
    if sep in s {
      var p := Pieces(s, sep);
      var r := DropTrailingEmpty(p);
      assert r != [] ==> r[|r| - 1] == p[|r| - 1];
      assert r == [] ==> AllEmpty(p);
    }
  }

  /** Otherwise split(",")[0] is the text before the first separator. */
  lemma SplitHead(s: string, sep: char)
    requires Split(s, sep) != []
    ensures Split(s, sep)[0] == UpTo(s, sep)
  {
  }

  // ------------------------------------------------------------ case folding

  /** Lower-casing of ASCII letters; every other char is left alone. */
  function LowerChar(c: char): (r: char)
    ensures 'A' <= c <= 'Z' ==> 'a' <= r <= 'z' && r as int == c as int + 32
    ensures !('A' <= c <= 'Z') ==> r == c
  {
    if 'A' <= c <= 'Z' then (c as int + 32) as char else c
  }

  function ToLower(s: string): (r: string)
    ensures |r| == |s|
    ensures forall i :: 0 <= i < |s| ==> r[i] == LowerChar(s[i])
  {
    seq(|s|, i requires 0 <= i < |s| => LowerChar(s[i]))
  }

  /** Equality of names up to case: the key comparison of a case-insensitive map. */
  predicate EqualsIgnoreCase(a: string, b: string) {
    ToLower(a) == ToLower(b)
  }

  /** Two chars that are equal, or an ASCII capital and its small letter. */
  predicate SameLetterUpToCase(x: char, y: char) {
    || x == y
    || ('A' <= x <= 'Z' && y as int == x as int + 32)
    || ('A' <= y <= 'Z' && x as int == y as int + 32)
  }

  /** Header names are equal ignoring case exactly when they have the same
      length and differ, char by char, at most in the case of ASCII letters. */
  lemma EqualsIgnoreCaseLetters(a: string, b: string)
    ensures EqualsIgnoreCase(a, b)
            <==> |a| == |b| && forall i :: 0 <= i < |a| ==> SameLetterUpToCase(a[i], b[i])
  {
  }

  // ------------------------------------------------------------------ UTF-8

  /** The number of bytes UTF-8 uses for one code point. */
  function Utf8Width(c: char): (n: nat)
    ensures 1 <= n <= 4
    ensures n == 1 <==> c as int < 0x80
  {
    if c as int < 0x80 then 1
    else if c as int < 0x800 then 2
    else if c as int < 0x1_0000 then 3
    else 4
  }

  /** getBytes(StandardCharsets.UTF_8).length. */
  function Utf8Length(s: string): (n: nat)
    ensures |s| <= n <= 4 * |s|
  {
    if s == [] then 0 else Utf8Width(s[0]) + Utf8Length(s[1..])
  }

  predicate IsAscii(s: string) {
    forall i :: 0 <= i < |s| ==> s[i] as int < 0x80
  }

  /** The UTF-8 length is the number of chars exactly when the text is ASCII. */
  lemma {:induction false} Utf8LengthAscii(s: string)
    ensures Utf8Length(s) == |s| <==> IsAscii(s)
  {
    if s != [] {
      Utf8LengthAscii(s[1..]);
      if IsAscii(s) {
        assert forall i :: 0 <= i < |s[1..]| ==> s[1..][i] == s[i + 1];
      }
      if IsAscii(s[1..]) && s[0] as int < 0x80 {
        forall i | 0 <= i < |s| ensures s[i] as int < 0x80 {
          if i > 0 { assert s[i] == s[1..][i - 1]; }
        }
      }
    }
  }

  /** The UTF-8 length of a concatenation is the sum of the lengths. */
  lemma {:induction false} Utf8LengthConcat(s: string, t: string)
    ensures Utf8Length(s + t) == Utf8Length(s) + Utf8Length(t)
  {
    if s != [] {
      assert (s + t)[1..] == s[1..] + t;
      Utf8LengthConcat(s[1..], t);
    } else {
      assert s + t == t;
    }
  }
}
