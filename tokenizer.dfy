/**
 * tokenize_hindi: the danda/newline sentence splitter for the Hindi side.
 * The text is split into lines, each line is stripped and split on the
 * danda (U+0964), and every non-blank stripped part is emitted with the
 * danda put back at its end.
 */
module HindiTokenizer {
  import opened Strings

  const Danda: char := '\U{0964}'
  const Newline: char := '\n'

  /** The sentence one danda-separated part contributes: none when it is blank. */
  function Fragment(part: string): seq<string>
  {
    var t := Strip(part);
    if t != [] then [t + [Danda]] else []
  }

  /** Sentences of the parts of one line, in order. */
  function PartsSentences(parts: seq<string>): seq<string>
  {
    if parts == [] then [] else PartsSentences(DropLast(parts)) + Fragment(Last(parts))
  }

  /** Sentences of one raw line: none for a blank line. */
  function LineSentences(line: string): seq<string>
  {
    var l := Strip(line);
    if l == [] then [] else PartsSentences(Split(l, Danda))
  }

  /** Sentences of a list of raw lines, in order. */
  function LinesSentences(lines: seq<string>): seq<string>
  {
    if lines == [] then [] else LinesSentences(DropLast(lines)) + LineSentences(Last(lines))
  }

  /** What tokenize_hindi returns for a text. */
  function HindiSentences(text: string): seq<string>
  {
    LinesSentences(Split(text, Newline))
  }

  /**
   * The shape of every emitted sentence: a body followed by one danda, where
   * the body is non-empty, holds no danda and no newline, and neither starts
   * nor ends with whitespace.
   */
  predicate WellFormedSentence(s: string)
  {
    && |s| >= 2
    && Last(s) == Danda
    && Danda !in DropLast(s)
    && Newline !in DropLast(s)
    && !IsSpace(DropLast(s)[0])
    && !IsSpace(Last(DropLast(s)))
  }

  /** A character that is neither whitespace nor a danda. */
  predicate Visible(c: char)
  {
    !IsSpace(c) && c != Danda
  }

  /** The visible characters of s, in order. */
  function Ink(s: string): string
  {
    if s == [] then [] else Ink(DropLast(s)) + (if Visible(Last(s)) then [Last(s)] else [])
  }

  /** The visible characters of a list of strings, in order. */
  function InkOfAll(parts: seq<string>): string
  {
    if parts == [] then [] else InkOfAll(DropLast(parts)) + Ink(Last(parts))
  }

  lemma {:induction false} InkAppend(s: string, t: string)
    ensures Ink(s + t) == Ink(s) + Ink(t)
    decreases |t|
  {
    if t == [] {
      assert s + t == s;
    } else {
      assert DropLast(s + t) == s + DropLast(t);
      InkAppend(s, DropLast(t));
    }
  }

  lemma {:induction false} InkAllSpace(s: string)
    requires AllSpace(s)
    ensures Ink(s) == []
    decreases |s|
  {
    if s != [] {
      InkAllSpace(DropLast(s));
    }
  }

  /** Stripping removes only whitespace. */
  lemma InkStrip(s: string)
    ensures Ink(Strip(s)) == Ink(s)
  {
    var r := Strip(s);
    var lo := Leading(s);
    StripShape(s);
    assert s == s[..lo] + r + s[lo + |r|..];
    InkAppend(s[..lo] + r, s[lo + |r|..]);
    InkAppend(s[..lo], r);
    InkAllSpace(s[..lo]);
    InkAllSpace(s[lo + |r|..]);
  }

  /** Joining on an invisible separator keeps exactly the parts' visible characters. */
  lemma {:induction false} InkJoin(parts: seq<string>, sep: char)
    requires |parts| >= 1 && !Visible(sep)
    ensures Ink(Join(parts, sep)) == InkOfAll(parts)
    decreases |parts|
  {
    if |parts| == 1 {
      assert DropLast(parts) == [];
    } else {
      InkJoin(DropLast(parts), sep);
      InkAppend(Join(DropLast(parts), sep) + [sep], Last(parts));
      InkAppend(Join(DropLast(parts), sep), [sep]);
      assert Ink([sep]) == Ink([]) + [] by { assert DropLast([sep]) == []; }
    }
  }

  /** The visible characters of a split text are those of the text. */
  lemma InkSplit(s: string, sep: char)
    requires !Visible(sep)
    ensures InkOfAll(Split(s, sep)) == Ink(s)
  {
    JoinSplit(s, sep);
    InkJoin(Split(s, sep), sep);
  }

  lemma {:induction false} PartsKeepInk(parts: seq<string>)
    ensures Ink(Flatten(PartsSentences(parts))) == InkOfAll(parts)
    decreases |parts|
  {
    if parts != [] {
      PartsKeepInk(DropLast(parts));
      var p := Last(parts);
      FlattenAppend(PartsSentences(DropLast(parts)), Fragment(p));
      InkAppend(Flatten(PartsSentences(DropLast(parts))), Flatten(Fragment(p)));
      InkStrip(p);
      var t := Strip(p);
      if t != [] {
        assert Flatten([t + [Danda]]) == t + [Danda] by {
          assert DropLast([t + [Danda]]) == [];
        }
        InkAppend(t, [Danda]);
        assert Ink([Danda]) == [] by { assert DropLast([Danda]) == []; }
      }
    }
  }

  lemma LineKeepsInk(line: string)
    ensures Ink(Flatten(LineSentences(line))) == Ink(line)
  {
    var l := Strip(line);
    InkStrip(line);
    if l != [] {
      PartsKeepInk(Split(l, Danda));
      InkSplit(l, Danda);
    }
  }

  lemma {:induction false} LinesKeepInk(lines: seq<string>)
    ensures Ink(Flatten(LinesSentences(lines))) == InkOfAll(lines)
    decreases |lines|
  {
    if lines != [] {
      LinesKeepInk(DropLast(lines));
      FlattenAppend(LinesSentences(DropLast(lines)), LineSentences(Last(lines)));
      InkAppend(Flatten(LinesSentences(DropLast(lines))), Flatten(LineSentences(Last(lines))));
      LineKeepsInk(Last(lines));
    }
  }

  /**
   * Nothing visible is lost, duplicated or reordered: the sentences, read one
   * after the other, hold exactly the text's non-whitespace, non-danda
   * characters in the text's order.
   */
  lemma SentencesKeepInk(text: string)
    ensures Ink(Flatten(HindiSentences(text))) == Ink(text)
  {
    LinesKeepInk(Split(text, Newline));
    InkSplit(text, Newline);
  }

  lemma {:induction false} PartsWellFormed(parts: seq<string>)
    requires forall k :: 0 <= k < |parts| ==> Danda !in parts[k] && Newline !in parts[k]
    ensures forall k :: 0 <= k < |PartsSentences(parts)| ==> WellFormedSentence(PartsSentences(parts)[k])
    decreases |parts|
  {
    if parts != [] {
      PartsWellFormed(DropLast(parts));
      var p := Last(parts);
      var t := Strip(p);
      if t != [] {
        var s := t + [Danda];
        StripShape(p);
        assert DropLast(s) == t;
        assert t == p[Leading(p)..Leading(p) + |t|];
        assert forall c :: c in t ==> c in p;
        assert WellFormedSentence(s);
      }
    }
  }

  lemma {:induction false} LinesWellFormed(lines: seq<string>)
    requires forall k :: 0 <= k < |lines| ==> Newline !in lines[k]
    ensures forall k :: 0 <= k < |LinesSentences(lines)| ==> WellFormedSentence(LinesSentences(lines)[k])
    decreases |lines|
  {
    if lines != [] {
      LinesWellFormed(DropLast(lines));
      var line := Last(lines);
      var l := Strip(line);
      if l != [] {
        StripShape(line);
        assert l == line[Leading(line)..Leading(line) + |l|];
        assert Newline !in l by { assert forall c :: c in l ==> c in line; }
        SplitKeepsChars(l, Danda);
        PartsWellFormed(Split(l, Danda));
      }
    }
  }

  /** Every sentence tokenize_hindi returns has the shape WellFormedSentence describes. */
  lemma SentencesWellFormed(text: string)
    ensures forall k :: 0 <= k < |HindiSentences(text)| ==> WellFormedSentence(HindiSentences(text)[k])
  {
    SplitKeepsChars(text, Newline);
    LinesWellFormed(Split(text, Newline));
  }

  lemma LinesSentencesStep(lines: seq<string>, n: nat)
    requires n < |lines|
    ensures LinesSentences(lines[..n + 1]) == LinesSentences(lines[..n]) +
      (if Strip(lines[n]) == [] then [] else PartsSentences(Split(Strip(lines[n]), Danda)))
  {
    assert DropLast(lines[..n + 1]) == lines[..n];
  }

  lemma PartsSentencesStep(previous: seq<string>, parts: seq<string>, n: nat)
    requires n < |parts|
    ensures previous + PartsSentences(parts[..n + 1]) == previous + PartsSentences(parts[..n]) +
      (if Strip(parts[n]) != [] then [Strip(parts[n]) + [Danda]] else [])
  {
    assert DropLast(parts[..n + 1]) == parts[..n];
  }

  /** tokenize_hindi: nested loops over lines and danda-separated parts. */
  method TokenizeHindi(text: string) returns (sentences: seq<string>)
    ensures sentences == HindiSentences(text)
    ensures forall k :: 0 <= k < |sentences| ==> WellFormedSentence(sentences[k])
    ensures Ink(Flatten(sentences)) == Ink(text)
  {
    var lines := Split(text, Newline);
    sentences := [];
    for li := 0 to |lines|
      invariant sentences == LinesSentences(lines[..li])
    {
      LinesSentencesStep(lines, li);
      var line := Strip(lines[li]);
      if line == [] {
        continue;
      }
      var parts := Split(line, Danda);
      ghost var previous := sentences;
      for pi := 0 to |parts|
        invariant sentences == previous + PartsSentences(parts[..pi])
      {
        PartsSentencesStep(previous, parts, pi);
        var part := Strip(parts[pi]);
        if part != [] {
          sentences := sentences + [part + [Danda]];
        }
      }
      assert parts[..|parts|] == parts;
    }
    assert lines[..|lines|] == lines;
    SentencesWellFormed(text);
    SentencesKeepInk(text);
  }
}
