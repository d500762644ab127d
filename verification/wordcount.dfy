/**
  The leaf of a task's work: splitting one line into words the way
  `std::getline(stream, word, ' ')` does, and folding those words into the
  task's word-frequency table.
 */
module WordCount {

  /** The task's word-frequency table (`std::map<std::string, uint32_t>`). */
  type Counters = map<string, nat>

  /** The only character that separates words; tabs and other blanks do not. */
  const Space: char := ' '

  /** Index of the first space in `s`, or `|s|` when `s` holds none. */
  function SpaceIndex(s: string): (i: nat)
    ensures i <= |s|
    ensures forall j :: 0 <= j < i ==> s[j] != Space
    ensures i < |s| ==> s[i] == Space
  {
    if s == [] || s[0] == Space then 0 else 1 + SpaceIndex(s[1..])
  }

  /**
    The words a repeated `getline(ss, word, ' ')` extracts from `s`: every
    space ends one word (an empty one after a leading or a doubled space),
    and the text after the last space is a word only when it is non-empty.
   */
  function Split(s: string): (r: seq<string>)
    ensures forall k :: 0 <= k < |r| ==> Space !in r[k]
    decreases |s|
  {
    if s == [] then []
    else
      var i := SpaceIndex(s);
      if i == |s| then [s] else [s[..i]] + Split(s[i + 1..])
  }

  /** Every word followed by one space: the text Split reads back. */
  function Terminated(words: seq<string>): string
  {
    if words == [] then [] else words[0] + [Space] + Terminated(words[1..])
  }

  /** A space-free word is found in full before the first space that follows it. */
  lemma {:induction false} SpaceIndexAfterWord(w: string, rest: string)
    requires Space !in w
    ensures SpaceIndex(w + [Space] + rest) == |w|
  {
    if w != [] {
      assert (w + [Space] + rest)[1..] == w[1..] + [Space] + rest;
      SpaceIndexAfterWord(w[1..], rest);
    }
  }

  /** A space-free word followed by a space is the first word Split extracts. */
  lemma SplitAfterWord(w: string, rest: string)
    requires Space !in w
    ensures Split(w + [Space] + rest) == [w] + Split(rest)
  {
    var t := w + [Space] + rest;
    SpaceIndexAfterWord(w, rest);
    assert t[..|w|] == w;
    assert t[|w| + 1..] == rest;
  }

  /**
    Splitting loses nothing: writing the words back, each followed by a
    space, gives the line itself when it is empty or ends in a space, and
    the line plus one space otherwise.
   */
  lemma {:induction false} TerminatedSplit(s: string)
    ensures Terminated(Split(s)) == if s == [] || s[|s| - 1] == Space then s else s + [Space]
    decreases |s|
  {
    if s != [] {
      var i := SpaceIndex(s);
      if i == |s| {
        assert Split(s) == [s];
        assert Terminated([s]) == s + [Space] + Terminated([]);
        assert s[|s| - 1] != Space;
      } else {
        var word, rest := s[..i], s[i + 1..];
        assert s == word + [Space] + rest;
        SplitAfterWord(word, rest);
        TerminatedSplit(rest);
        assert ([word] + Split(rest))[1..] == Split(rest);
        if rest != [] {
          assert s[|s| - 1] == rest[|rest| - 1];
        }
      }
    }
  }

  /** Words without spaces come back unchanged from their terminated text. */
  lemma {:induction false} SplitTerminated(words: seq<string>)
    requires forall k :: 0 <= k < |words| ==> Space !in words[k]
    ensures Split(Terminated(words)) == words
  {
    if words != [] {
      SplitAfterWord(words[0], Terminated(words[1..]));
      SplitTerminated(words[1..]);
    }
  }

  /**
    A line yields one word per space, plus one more when it is non-empty
    and does not end in a space.
   */
  lemma SplitLength(s: string)
    ensures |Split(s)| == multiset(s)[Space] + (if s != [] && s[|s| - 1] != Space then 1 else 0)
  {
    TerminatedSplit(s);
    TerminatedSpaces(Split(s));
    if s != [] && s[|s| - 1] != Space {
      assert multiset(s + [Space]) == multiset(s) + multiset{Space};
    }
  }

  /** Terminated text holds exactly one space per word when the words hold none. */
  lemma {:induction false} TerminatedSpaces(words: seq<string>)
    requires forall k :: 0 <= k < |words| ==> Space !in words[k]
    ensures multiset(Terminated(words))[Space] == |words|
  {
    if words != [] {
      TerminatedSpaces(words[1..]);
      var w := words[0];
      assert Space !in multiset(w);
      assert multiset(Terminated(words)) == multiset(w) + multiset{Space} + multiset(Terminated(words[1..]));
    }
  }

  /** The count `std::map::operator[]` reads for `w`: 0 when `w` is absent. */
  function Count(c: Counters, w: string): nat
  {
    if w in c then c[w] else 0
  }

  /**
    `count_word`: the entry for `w` (0 when absent) goes up by exactly one,
    and every other entry stays as it was.
   */
  function CountWord(c: Counters, w: string): (r: Counters)
    ensures Count(r, w) == Count(c, w) + 1
    ensures r.Keys == c.Keys + {w}
    ensures forall v :: v in c && v != w ==> r[v] == c[v]
  {
    c[w := Count(c, w) + 1]
  }

  /**
    `count_word` applied to each word in turn: afterwards every word's
    count has grown by its number of occurrences in `words`.
   */
  function CountWords(c: Counters, words: seq<string>): (r: Counters)
    ensures r.Keys == c.Keys + set w | w in words
    ensures forall w :: Count(r, w) == Count(c, w) + multiset(words)[w]
    decreases |words|
  {
    if words == [] then c
    else
      assert words == [words[0]] + words[1..];
      CountWords(CountWord(c, words[0]), words[1..])
  }

  /** Counting two runs of words one after the other counts their concatenation. */
  lemma {:induction false} CountWordsAppend(c: Counters, a: seq<string>, b: seq<string>)
    ensures CountWords(c, a + b) == CountWords(CountWords(c, a), b)
    decreases |a|
  {
    if a != [] {
      assert (a + b)[0] == a[0];
      assert (a + b)[1..] == a[1..] + b;
      assert CountWords(c, a + b) == CountWords(CountWord(c, a[0]), a[1..] + b);
      assert CountWords(c, a) == CountWords(CountWord(c, a[0]), a[1..]);
      CountWordsAppend(CountWord(c, a[0]), a[1..], b);
    } else {
      assert a + b == b;
    }
  }

  /** The sum of all counts in the table, in no particular key order. */
  ghost function Total(c: Counters): nat
    decreases |c|
  {
    if c == map[] then 0
    else
      var w :| w in c;
      assert (c - {w}).Keys == c.Keys - {w};
      c[w] + Total(c - {w})
  }

  /** The sum does not depend on which key is taken out first. */
  lemma {:induction false} TotalRemove(c: Counters, w: string)
    requires w in c
    ensures Total(c) == c[w] + Total(c - {w})
    decreases |c|
  {
    var v :| v in c && Total(c) == c[v] + Total(c - {v});
    if v != w {
      assert (c - {v}).Keys == c.Keys - {v};
      TotalRemove(c - {v}, w);
      TotalRemove(c - {w}, v);
      assert c - {v} - {w} == c - {w} - {v};
    }
  }

  /** One `count_word` adds exactly one to the sum of all counts. */
  lemma TotalCountWord(c: Counters, w: string)
    ensures Total(CountWord(c, w)) == Total(c) + 1
  {
    var r := CountWord(c, w);
    TotalRemove(r, w);
    if w in c {
      TotalRemove(c, w);
      assert r - {w} == c - {w};
    } else {
      assert r - {w} == c;
    }
  }

  /** Counting a run of words adds its length to the sum of all counts. */
  lemma {:induction false} TotalCountWords(c: Counters, words: seq<string>)
    ensures Total(CountWords(c, words)) == Total(c) + |words|
    decreases |words|
  {
    if words != [] {
      TotalCountWord(c, words[0]);
      TotalCountWords(CountWord(c, words[0]), words[1..]);
    }
  }

  /** The `words_total` loop: the sum of every counter in the table. */
  method WordsTotal(c: Counters) returns (total: nat)
    ensures total == Total(c)
  {
    total := 0;
    var rest := c;
    while rest != map[]
      invariant total + Total(rest) == Total(c)
      decreases |rest|
    {
      var w :| w in rest;
      TotalRemove(rest, w);
      total := total + rest[w];
      assert (rest - {w}).Keys == rest.Keys - {w};
      rest := rest - {w};
    }
  }
}
