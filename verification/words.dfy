/** How the rotating text breaks its current entry into words and characters before animating
    them: `text.split(" ")`, one `{characters, needsSpace}` record per word, and a trailing space
    after every word but the last. */
module Words {

  /** One animated word: the pieces rendered one `motion.span` each, and whether a space follows. */
  datatype Word = Word(characters: seq<string>, needsSpace: bool)

  /** JavaScript's `s.split(" ")`: the maximal space-free runs of `s`, including empty runs
      between adjacent spaces and at either end; never an empty list. */
  function Split(s: string): (r: seq<string>)
    ensures |r| >= 1
    ensures forall k :: 0 <= k < |r| ==> ' ' !in r[k]
    decreases |s|
  {
    if |s| == 0 then [""]
    else
      var rest := Split(s[1..]);
      if s[0] == ' ' then [""] + rest
      else [[s[0]] + rest[0]] + rest[1..]
  }

  /** `parts.join(" ")`. */
  function Join(parts: seq<string>): string
    requires |parts| >= 1
    decreases |parts|
  {
    if |parts| == 1 then parts[0] else parts[0] + " " + Join(parts[1..])
  }

  /** Joining the pieces back with single spaces gives the original text. */
  lemma {:induction false} JoinSplit(s: string)
    ensures Join(Split(s)) == s
    decreases |s|
  {
    if |s| > 0 {
      var rest := Split(s[1..]);
      JoinSplit(s[1..]);
      if s[0] == ' ' {
        assert Split(s)[1..] == rest;
        assert s == [' '] + s[1..];
      } else {
        var r := Split(s);
        assert r[0] == [s[0]] + rest[0];
        if |rest| == 1 {
          assert s == [s[0]] + s[1..];
        } else {
          assert r[1..] == rest[1..];
          assert Join(r) == r[0] + " " + Join(rest[1..]);
          assert Join(rest) == rest[0] + " " + Join(rest[1..]);
          assert s == [s[0]] + s[1..];
        }
      }
    }
  }

  /** Splitting a space-free run followed by more text: the run heads the list. */
  lemma {:induction false} SplitPrefix(w: string, tail: string)
    requires ' ' !in w
    ensures Split(w + " " + tail) == [w] + Split(tail)
    decreases |w|
  {
    if |w| == 0 {
      assert w + " " + tail == [' '] + tail;
      assert (w + " " + tail)[1..] == tail;
    } else {
      SplitPrefix(w[1..], tail);
      assert (w + " " + tail)[1..] == w[1..] + " " + tail;
      assert [w[0]] + w[1..] == w;
    }
  }

  /** Splitting a space-free run on its own gives that run. */
  lemma {:induction false} SplitWord(w: string)
    requires ' ' !in w
    ensures Split(w) == [w]
    decreases |w|
  {
    if |w| > 0 {
      SplitWord(w[1..]);
      assert [w[0]] + w[1..] == w;
    }
  }

  /** The converse round trip: space-free pieces survive joining and splitting again. */
  lemma {:induction false} SplitJoin(parts: seq<string>)
    requires |parts| >= 1
    requires forall k :: 0 <= k < |parts| ==> ' ' !in parts[k]
    ensures Split(Join(parts)) == parts
    decreases |parts|
  {
    if |parts| == 1 {
      SplitWord(parts[0]);
    } else {
      SplitJoin(parts[1..]);
      SplitPrefix(parts[0], Join(parts[1..]));
      assert [parts[0]] + parts[1..] == parts;
    }
  }

  /** Concatenation of a list of strings. */
  function Concat(pieces: seq<string>): string
    decreases |pieces|
  {
    if |pieces| == 0 then "" else pieces[0] + Concat(pieces[1..])
  }

  /** What both ways of breaking a word into characters promise: the pieces, in order, spell the
      word. `Intl.Segmenter` yields grapheme clusters and the fallback `Array.from(word)` yields
      code points; both satisfy this. */
  ghost predicate SpellsWord(splitter: string -> seq<string>) {
    forall w :: Concat(splitter(w)) == w
  }

  /** `Array.from(word)` on a string of single-unit characters: one single-character string per
      character, which concatenate back to the word. */
  function Characters(w: string): (r: seq<string>)
    ensures |r| == |w|
    ensures forall j :: 0 <= j < |r| ==> r[j] == [w[j]]
    ensures Concat(r) == w
    decreases |w|
  {
    if |w| == 0 then [] else [[w[0]]] + Characters(w[1..])
  }

  /** The `Array.from` fallback is a splitter in the above sense. */
  lemma CharactersSpellWord()
    ensures SpellsWord(Characters)
  {
  }

  /** The `words` list of the rendered entry: the pieces of `text.split(" ")`, each broken up by
      `splitter` when `splitBy` is `"characters"` and kept whole otherwise; every word but the
      last asks for a trailing space. */
  function Segment(text: string, splitBy: string, splitter: string -> seq<string>): (r: seq<Word>)
    requires SpellsWord(splitter)
    ensures |r| == |Split(text)| >= 1
    ensures forall k :: 0 <= k < |r| ==> Concat(r[k].characters) == Split(text)[k]
    ensures forall k :: 0 <= k < |r| ==> (r[k].needsSpace <==> k != |r| - 1)
    ensures splitBy == "characters" ==> forall k :: 0 <= k < |r| ==> r[k].characters == splitter(Split(text)[k])
    ensures splitBy != "characters" ==> forall k :: 0 <= k < |r| ==> r[k].characters == [Split(text)[k]]
  {
    var parts := Split(text);
    seq(|parts|, k requires 0 <= k < |parts| =>
      Word(if splitBy == "characters" then splitter(parts[k]) else [parts[k]], k != |parts| - 1))
  }

  /** With the `Array.from` fallback a word has as many animated pieces as characters. */
  lemma SegmentByCharacters(text: string)
    ensures (CharactersSpellWord(); var r := Segment(text, "characters", Characters);
             forall k :: 0 <= k < |r| ==> |r[k].characters| == |Split(text)[k]|)
  {
  }

  /** The text a row of words shows on screen: each word's characters, then a space if it asks for one. */
  function Render(words: seq<Word>): (r: string)
    ensures |words| == 0 ==> r == ""
    ensures |words| > 0 ==> Concat(words[0].characters) <= r
    ensures (exists k :: 0 <= k < |words| && words[k].needsSpace) ==> ' ' in r
    decreases |words|
  {
    if |words| == 0 then ""
    else Concat(words[0].characters) + (if words[0].needsSpace then " " else "") + Render(words[1..])
  }

  /** Words whose characters spell `parts` and whose spaces sit between them render as the join. */
  lemma {:induction false} RenderIsJoin(words: seq<Word>, parts: seq<string>)
    requires |words| == |parts| >= 1
    requires forall k :: 0 <= k < |words| ==> Concat(words[k].characters) == parts[k]
    requires forall k :: 0 <= k < |words| ==> (words[k].needsSpace <==> k != |words| - 1)
    ensures Render(words) == Join(parts)
    decreases |words|
  {
    if |words| == 1 {
      assert Render(words[1..]) == "";
    } else {
      RenderIsJoin(words[1..], parts[1..]);
    }
  }

  /** Whichever way the entry is split, the animated pieces and spaces spell exactly the entry. */
  lemma RenderSegment(text: string, splitBy: string, splitter: string -> seq<string>)
    requires SpellsWord(splitter)
    ensures Render(Segment(text, splitBy, splitter)) == text
  {
    RenderIsJoin(Segment(text, splitBy, splitter), Split(text));
    JoinSplit(text);
  }
}
