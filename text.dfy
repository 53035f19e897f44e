/**
 * The string operations the cleaner relies on: Python's `str.lower()`
 * (restricted to ASCII letters), the `in` operator on two strings (contiguous
 * substring search) and `str.split(sep)` with a one-character separator.
 */
module Text {

  /** Lowercase one character: `A`..`Z` become `a`..`z`, everything else is kept. */
  function Lower(c: char): (d: char)
    ensures 'A' <= c <= 'Z' ==> d as int == c as int + 32
    ensures !('A' <= c <= 'Z') ==> d == c
    ensures !('A' <= d <= 'Z')
  {
    if 'A' <= c <= 'Z' then (c as int + 32) as char else c
  }

  /** `s.lower()`: lowercase every character, position by position. */
  function LowerStr(s: string): (t: string)
    ensures |t| == |s|
    ensures forall i :: 0 <= i < |s| ==> t[i] == Lower(s[i])
  {
    seq(|s|, i requires 0 <= i < |s| => Lower(s[i]))
  }

  /** Lowercasing twice is lowercasing once. */
  lemma LowerStrIdempotent(s: string)
    ensures LowerStr(LowerStr(s)) == LowerStr(s)
  {
  }

  /** Lowercasing distributes over concatenation. */
  lemma LowerStrAppend(a: string, b: string)
    ensures LowerStr(a + b) == LowerStr(a) + LowerStr(b)
  {
  }

  /** `pat` occurs in `text` starting at position `i`. */
  ghost predicate OccursAt(pat: string, text: string, i: int) {
    0 <= i <= |text| - |pat| && text[i..i + |pat|] == pat
  }

  /** `pat` occurs in `text` as a contiguous block of characters. */
  ghost predicate IsSubstring(pat: string, text: string) {
    exists i :: OccursAt(pat, text, i)
  }

  /** Python's `pat in text` for two strings: a left-to-right search. */
  function Contains(text: string, pat: string): (r: bool)
    ensures r <==> IsSubstring(pat, text)
    decreases |text|
  {
    if |pat| > |text| then false
    else if text[..|pat|] == pat then
      assert OccursAt(pat, text, 0);
      true
    else
      SubstringShift(text, pat);
      Contains(text[1..], pat)
  }

  /** When `pat` is not at the front of `text`, it occurs in `text` iff it occurs in `text[1..]`. */
  lemma SubstringShift(text: string, pat: string)
    requires |pat| <= |text| && text[..|pat|] != pat
    ensures IsSubstring(pat, text) <==> IsSubstring(pat, text[1..])
  {
    if IsSubstring(pat, text[1..]) {
      var i :| OccursAt(pat, text[1..], i);
      assert text[i + 1..i + 1 + |pat|] == pat;
      assert OccursAt(pat, text, i + 1);
    }
    if IsSubstring(pat, text) {
      var i :| OccursAt(pat, text, i);
      assert i > 0;
      assert text[1..][i - 1..i - 1 + |pat|] == pat;
      assert OccursAt(pat, text[1..], i - 1);
    }
  }

  /** The empty string occurs in every text (Python: `"" in s` is True). */
  lemma EmptyIsSubstring(text: string)
    ensures Contains(text, "")
  {
  }

  /** Only the empty string occurs in the empty text. */
  lemma SubstringOfEmpty(pat: string)
    ensures Contains("", pat) <==> pat == ""
  {
  }

  /** `s.split(sep)`: the pieces between the occurrences of `sep`, in order. */
  function Split(s: string, sep: char): (parts: seq<string>)
    ensures |parts| >= 1
    ensures forall k :: 0 <= k < |parts| ==> sep !in parts[k]
    decreases |s|
  {
    if s == [] then [[]]
    else
      var rest := Split(s[1..], sep);
      if s[0] == sep then [[]] + rest
      else [[s[0]] + rest[0]] + rest[1..]
  }

  /** `sep.join(parts)`: the pieces glued back together with `sep` in between. */
  function Join(parts: seq<string>, sep: char): string
    requires |parts| >= 1
    decreases |parts|
  {
    if |parts| == 1 then parts[0] else parts[0] + [sep] + Join(parts[1..], sep)
  }

  /** Joining the pieces of a split gives back the original string. */
  lemma {:induction false} JoinSplit(s: string, sep: char)
    ensures Join(Split(s, sep), sep) == s
    decreases |s|
  {
    if s != [] {
      var rest := Split(s[1..], sep);
      JoinSplit(s[1..], sep);
      if s[0] == sep {
        assert Split(s, sep)[1..] == rest;
      } else {
        var parts := Split(s, sep);
        assert parts[0] == [s[0]] + rest[0];
        if |rest| == 1 {
          assert parts == [[s[0]] + rest[0]];
        } else {
          assert parts[1..] == rest[1..];
          assert Join(rest, sep) == rest[0] + [sep] + Join(rest[1..], sep);
        }
      }
    }
  }

  /** Splitting a join of separator-free pieces gives back the pieces. */
  lemma {:induction false} SplitJoin(parts: seq<string>, sep: char)
    requires |parts| >= 1
    requires forall k :: 0 <= k < |parts| ==> sep !in parts[k]
    ensures Split(Join(parts, sep), sep) == parts
    decreases |parts|, |parts[0]|
  {
    var s := Join(parts, sep);
    if parts[0] == [] {
      if |parts| > 1 {
        SplitJoin(parts[1..], sep);
        assert s == [sep] + Join(parts[1..], sep);
        assert s[1..] == Join(parts[1..], sep);
        assert [[]] + parts[1..] == parts;
      }
    } else {
      var c := parts[0][0];
      var shorter := [parts[0][1..]] + parts[1..];
      SplitJoin(shorter, sep);
      if |parts| == 1 {
        assert s == parts[0];
        assert s[1..] == Join(shorter, sep);
      } else {
        assert s[1..] == Join(shorter, sep);
      }
      assert s[0] == c && c != sep;
      assert parts[0] == [c] + parts[0][1..];
      assert [[c] + shorter[0]] + shorter[1..] == parts;
    }
  }

  /** The first piece of a split is the prefix before the first `sep`, or the whole string. */
  lemma {:induction false} SplitFirstPiece(s: string, sep: char)
    ensures var head := Split(s, sep)[0];
      && |head| <= |s| && s[..|head|] == head && sep !in head
      && (|head| < |s| ==> s[|head|] == sep)
    decreases |s|
  {
    if s != [] && s[0] != sep {
      SplitFirstPiece(s[1..], sep);
    }
  }
}
