/**
 * The handful of Python string and list builtins the preprocessing script
 * relies on (str.split with an explicit separator, str.join, str.strip,
 * str.isspace, list.reverse), stated over sequences.
 */
module Strings {

  function Last<T>(s: seq<T>): T
    requires |s| > 0
  {
    s[|s| - 1]
  }

  function DropLast<T>(s: seq<T>): seq<T>
    requires |s| > 0
  {
    s[..|s| - 1]
  }

  /** Concatenation of a list of sequences (Python's "".join / sum of lists). */
  function Flatten<T>(xs: seq<seq<T>>): seq<T>
  {
    if xs == [] then [] else Flatten(DropLast(xs)) + Last(xs)
  }

  lemma {:induction false} FlattenAppend<T>(xs: seq<seq<T>>, ys: seq<seq<T>>)
    ensures Flatten(xs + ys) == Flatten(xs) + Flatten(ys)
    decreases |ys|
  {
    if ys != [] {
      assert DropLast(xs + ys) == xs + DropLast(ys);
      FlattenAppend(xs, DropLast(ys));
    } else {
      assert xs + ys == xs;
    }
  }

  /** The list in reverse order (Python's in-place list.reverse()). */
  function Reversed<T>(s: seq<T>): (r: seq<T>)
    ensures |r| == |s|
    ensures forall k :: 0 <= k < |s| ==> r[k] == s[|s| - 1 - k]
  {
    if s == [] then [] else [Last(s)] + Reversed(DropLast(s))
  }

  lemma ReversedSnoc<T>(s: seq<T>, x: T)
    ensures Reversed(s + [x]) == [x] + Reversed(s)
  {
    var r, r' := Reversed(s + [x]), [x] + Reversed(s);
    assert forall k :: 0 <= k < |r| ==> r[k] == r'[k];
  }

  /** Prepending x to a list reversed later is appending it before reversal. */
  lemma ReverseOnto<T>(before: seq<T>, x: T, rev: seq<T>)
    ensures before + [x] + Reversed(rev) == before + Reversed(rev + [x])
  {
    ReversedSnoc(rev, x);
  }

  /** Python's str.isspace() for a single character (Unicode whitespace). */
  predicate IsSpace(c: char)
  {
    || ('\t' <= c <= '\r')
    || ('\U{1C}' <= c <= ' ')
    || c == '\U{85}' || c == '\U{A0}' || c == '\U{1680}'
    || ('\U{2000}' <= c <= '\U{200A}')
    || c == '\U{2028}' || c == '\U{2029}' || c == '\U{202F}' || c == '\U{205F}'
    || c == '\U{3000}'
  }

  predicate AllSpace(s: string)
  {
    forall k :: 0 <= k < |s| ==> IsSpace(s[k])
  }

  /** sep.join(parts) for a one-character separator. */
  function Join(parts: seq<string>, sep: char): string
    requires |parts| >= 1
  {
    if |parts| == 1 then parts[0] else Join(DropLast(parts), sep) + [sep] + Last(parts)
  }

  /** " ".join(sentences): the text of a group of consecutive sentences. */
  function JoinSpace(sentences: seq<string>): string
  {
    if sentences == [] then "" else Join(sentences, ' ')
  }

  /**
   * s.split(sep): the maximal runs of s between occurrences of sep, in order;
   * always at least one (possibly empty) part, and no part holds sep.
   */
  function Split(s: string, sep: char): (parts: seq<string>)
    ensures |parts| >= 1
    ensures forall k :: 0 <= k < |parts| ==> sep !in parts[k]
    decreases |s|
  {
    if s == [] then [[]]
    else
      var r := Split(DropLast(s), sep);
      if Last(s) == sep then r + [[]]
      else DropLast(r) + [Last(r) + [Last(s)]]
  }

  /** Every character of every part comes from the text. */
  lemma {:induction false} SplitKeepsChars(s: string, sep: char)
    ensures forall k :: 0 <= k < |Split(s, sep)| ==> forall c :: c in Split(s, sep)[k] ==> c in s
    decreases |s|
  {
    if s != [] {
      SplitKeepsChars(DropLast(s), sep);
      assert forall c :: c in DropLast(s) ==> c in s;
    }
  }

  /** Splitting and re-joining on the same separator gives back the text. */
  lemma {:induction false} JoinSplit(s: string, sep: char)
    ensures Join(Split(s, sep), sep) == s
    decreases |s|
  {
    if s != [] {
      var r := Split(DropLast(s), sep);
      JoinSplit(DropLast(s), sep);
      if Last(s) == sep {
        assert DropLast(r + [[]]) == r;
      } else {
        var r' := DropLast(r) + [Last(r) + [Last(s)]];
        if |r| > 1 {
          assert DropLast(r') == DropLast(r);
          assert Join(r, sep) == Join(DropLast(r), sep) + [sep] + Last(r);
        }
      }
      assert DropLast(s) + [Last(s)] == s;
    }
  }

  /** Number of whitespace characters at the front of s. */
  function Leading(s: string): (n: nat)
    ensures n <= |s|
    decreases |s|
  {
    if s != [] && IsSpace(s[0]) then 1 + Leading(s[1..]) else 0
  }

  /** Number of whitespace characters at the back of s. */
  function Trailing(s: string): (n: nat)
    ensures n <= |s|
    decreases |s|
  {
    if s != [] && IsSpace(Last(s)) then 1 + Trailing(DropLast(s)) else 0
  }

  /** s.strip(): s without its leading and trailing whitespace. */
  function Strip(s: string): (r: string)
    ensures |r| <= |s|
  {
    var t := s[Leading(s)..];
    t[..|t| - Trailing(t)]
  }

  lemma {:induction false} LeadingIsSpace(s: string)
    ensures AllSpace(s[..Leading(s)])
    ensures Leading(s) == |s| || !IsSpace(s[Leading(s)])
    decreases |s|
  {
    if s != [] && IsSpace(s[0]) {
      LeadingIsSpace(s[1..]);
      assert s[..Leading(s)] == [s[0]] + s[1..][..Leading(s[1..])];
    }
  }

  lemma {:induction false} TrailingIsSpace(s: string)
    ensures AllSpace(s[|s| - Trailing(s)..])
    ensures Trailing(s) == |s| || !IsSpace(s[|s| - Trailing(s) - 1])
    decreases |s|
  {
    if s != [] && IsSpace(Last(s)) {
      var d := DropLast(s);
      var m := Trailing(d);
      TrailingIsSpace(d);
      assert Trailing(s) == m + 1;
      assert |s| - Trailing(s) == |d| - m;
      assert s[|s| - Trailing(s)..] == d[|d| - m..] + [Last(s)];
      if m < |d| {
        assert s[|s| - Trailing(s) - 1] == d[|d| - m - 1];
      }
    } else {
      assert s[|s| - Trailing(s)..] == [];
    }
  }

  /**
   * What strip leaves: the slice of s that starts after its leading
   * whitespace, with neither end whitespace, and only whitespace outside it.
   */
  lemma StripShape(s: string)
    ensures Strip(s) == [] || (!IsSpace(Strip(s)[0]) && !IsSpace(Last(Strip(s))))
    ensures Leading(s) + |Strip(s)| <= |s|
    ensures Strip(s) == s[Leading(s)..Leading(s) + |Strip(s)|]
    ensures AllSpace(s[..Leading(s)]) && AllSpace(s[Leading(s) + |Strip(s)|..])
  {
    var lo := Leading(s);
    var t := s[lo..];
    var r := t[..|t| - Trailing(t)];
    assert Strip(s) == r;
    assert r == s[lo..lo + |r|];
    assert AllSpace(s[..lo]) by { LeadingIsSpace(s); }
    assert AllSpace(s[lo + |r|..]) by {
      TrailingIsSpace(t);
      assert t[|t| - Trailing(t)..] == s[lo + |r|..];
    }
    if r != [] {
      assert !IsSpace(r[0]) by {
        LeadingIsSpace(s);
        assert r[0] == s[lo];
      }
      assert !IsSpace(Last(r)) by {
        TrailingIsSpace(t);
        assert Last(r) == t[|t| - Trailing(t) - 1];
      }
    }
  }
}
