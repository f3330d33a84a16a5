/**
 * The three Python string operations the guard relies on:
 * `str.split(sep)` with an explicit separator, `str.lower()` and the
 * substring test `needle in haystack`.
 */
module PyStr {

  // ---------------------------------------------------------------------
  // str.split(sep): every occurrence of sep cuts, empty pieces are kept
  // ---------------------------------------------------------------------

  /** `s.split(sep)` for a one-character separator: one more piece than
      there are separators, and no piece holds the separator. */
  function Split(s: string, sep: char): (parts: seq<string>)
    ensures |parts| == multiset(s)[sep] + 1
    ensures forall i :: 0 <= i < |parts| ==> sep !in parts[i]
    decreases |s|
  {
    if |s| == 0 then [""]
    else
      var rest := Split(s[1..], sep);
      assert s == [s[0]] + s[1..];
      if s[0] == sep then [""] + rest
      else [[s[0]] + rest[0]] + rest[1..]
  }

  /** `sep.join(parts)`: the inverse of Split. */
  function Join(parts: seq<string>, sep: char): string
    requires |parts| > 0
  {
    if |parts| == 1 then parts[0]
    else parts[0] + [sep] + Join(parts[1..], sep)
  }

  /** Joining the pieces again gives back the string that was split. */
  lemma {:induction false} JoinSplit(s: string, sep: char)
    ensures Join(Split(s, sep), sep) == s
    decreases |s|
  {
    if |s| > 0 {
      var rest := Split(s[1..], sep);
      JoinSplit(s[1..], sep);
      assert s == [s[0]] + s[1..];
      if s[0] == sep {
        JoinCons("", rest, sep);
      } else {
        JoinExtendFirst(s[0], rest, sep);
      }
    }
  }

  lemma JoinCons(p: string, parts: seq<string>, sep: char)
    requires |parts| > 0
    ensures Join([p] + parts, sep) == p + [sep] + Join(parts, sep)
  {
    assert ([p] + parts)[1..] == parts;
  }

  lemma JoinExtendFirst(c: char, parts: seq<string>, sep: char)
    requires |parts| > 0
    ensures Join([[c] + parts[0]] + parts[1..], sep) == [c] + Join(parts, sep)
  {
    if |parts| > 1 {
      JoinCons([c] + parts[0], parts[1..], sep);
    }
  }

  /** A string without the separator is a single piece. */
  lemma {:induction false} SplitNoSeparator(s: string, sep: char)
    requires sep !in s
    ensures Split(s, sep) == [s]
    decreases |s|
  {
    if |s| > 0 {
      SplitNoSeparator(s[1..], sep);
      assert s == [s[0]] + s[1..];
    }
  }

  /** The first piece ends at the first separator. */
  lemma {:induction false} SplitAtFirst(s: string, sep: char, i: nat)
    requires i < |s| && s[i] == sep && sep !in s[..i]
    ensures Split(s, sep) == [s[..i]] + Split(s[i + 1..], sep)
    decreases i
  {
    if i > 0 {
      assert s[1..][..i - 1] == s[1..i];
      SplitAtFirst(s[1..], sep, i - 1);
      assert s[1..][i..] == s[i + 1..];
      assert [s[0]] + s[1..i] == s[..i];
    }
  }

  /** A string with exactly one separator, at i, splits into the part
      before it and the part after it. */
  lemma SplitAtSole(s: string, sep: char, i: nat)
    requires i < |s| && s[i] == sep && multiset(s)[sep] == 1
    ensures sep !in s[..i] && sep !in s[i + 1..]
    ensures Split(s, sep) == [s[..i], s[i + 1..]]
  {
    assert s == s[..i] + [s[i]] + s[i + 1..];
    assert multiset(s) == multiset(s[..i]) + multiset([s[i]]) + multiset(s[i + 1..]);
    SplitAtFirst(s, sep, i);
    SplitNoSeparator(s[i + 1..], sep);
  }

  // ---------------------------------------------------------------------
  // str.lower(), restricted to ASCII letters
  // ---------------------------------------------------------------------

  predicate IsUpper(c: char) { 'A' <= c <= 'Z' }

  /** One character lower-cased: an upper-case ASCII letter becomes its
      lower-case letter; everything else is left alone. */
  function LowerChar(c: char): (r: char)
    ensures !IsUpper(r)
    ensures IsUpper(c) ==> r as int == c as int + 32
    ensures !IsUpper(c) ==> r == c
  {
    if IsUpper(c) then (c as int + 32) as char else c
  }

  /** `s.lower()`: the same length, each character lower-cased. */
  function Lower(s: string): (r: string)
    ensures |r| == |s|
    ensures forall i :: 0 <= i < |s| ==> r[i] == LowerChar(s[i])
    decreases |s|
  {
    if |s| == 0 then "" else [LowerChar(s[0])] + Lower(s[1..])
  }

  /** Lower-casing compares letters without regard to case: `w.lower()`
      equals a lower-case word exactly when each character of w is that
      word's letter in either case. */
  lemma LowerEqualsIgnoringCase(w: string, word: string)
    requires forall i :: 0 <= i < |word| ==> 'a' <= word[i] <= 'z'
    ensures Lower(w) == word <==>
      |w| == |word| && forall i :: 0 <= i < |w| ==> SameLetter(w[i], word[i])
  {
    if Lower(w) == word {
      forall i | 0 <= i < |w| ensures SameLetter(w[i], word[i]) {
        assert LowerChar(w[i]) == word[i];
      }
    }
    if |w| == |word| && forall i :: 0 <= i < |w| ==> SameLetter(w[i], word[i]) {
      forall i | 0 <= i < |w| ensures Lower(w)[i] == word[i] {
        assert SameLetter(w[i], word[i]);
      }
    }
  }

  /** c is the lower-case letter x or its upper-case form. */
  predicate SameLetter(c: char, x: char)
  {
    c == x || c as int == x as int - 32
  }

  // ---------------------------------------------------------------------
  // `needle in haystack` for two strings
  // ---------------------------------------------------------------------

  predicate OccursAt(needle: string, hay: string, i: int)
  {
    0 <= i && i + |needle| <= |hay| && hay[i..i + |needle|] == needle
  }

  /** Python's substring test: the empty string occurs in every string. */
  function IsSubstring(needle: string, hay: string): (r: bool)
    ensures r <==> exists i :: OccursAt(needle, hay, i)
    decreases |hay|
  {
    if |needle| <= |hay| && hay[..|needle|] == needle then
      assert OccursAt(needle, hay, 0);
      true
    else if |hay| == 0 then
      false
    else
      var r := IsSubstring(needle, hay[1..]);
      if r then
        assert exists i :: OccursAt(needle, hay, i) by {
          var i :| OccursAt(needle, hay[1..], i);
          assert hay[1..][i..i + |needle|] == hay[i + 1..i + 1 + |needle|];
          assert OccursAt(needle, hay, i + 1);
        }
        true
      else
        assert forall i :: OccursAt(needle, hay, i) ==> i > 0 && OccursAt(needle, hay[1..], i - 1) by {
          forall i | OccursAt(needle, hay, i) ensures i > 0 && OccursAt(needle, hay[1..], i - 1) {
            assert hay[1..][i - 1..i - 1 + |needle|] == hay[i..i + |needle|];
          }
        }
        false
  }
}
