/** How headless.js turns the source file into its dictionary: split on line
    feeds, then keep only the words shorter than eight UTF-16 code units.
    puppeteer.js keeps the plain split, `JsString.Split`. */
module Dictionary {
  import opened JsString

  /** Words must be shorter than this to be looked up by headless.js. */
  const MaxWordLength: nat := 8

  /** `a` can be obtained from `b` by deleting entries, so `a` keeps the relative
      order its entries have in `b`. */
  ghost predicate IsSubsequence(a: seq<string>, b: seq<string>)
  {
    a == [] || (b != [] && ((a[0] == b[0] && IsSubsequence(a[1..], b[1..])) || IsSubsequence(a, b[1..])))
  }

  /** `words.filter((w) => w.length < 8)`. */
  function ShortWords(words: seq<string>): (kept: seq<string>)
    ensures forall w :: w in kept <==> w in words && JsLength(w) < MaxWordLength
    ensures forall w :: multiset(kept)[w] == if JsLength(w) < MaxWordLength then multiset(words)[w] else 0
    ensures IsSubsequence(kept, words)
  {
    if words == [] then []
    else
      var rest := ShortWords(words[1..]);
      assert words == [words[0]] + words[1..];
      if JsLength(words[0]) < MaxWordLength then
        assert ([words[0]] + rest)[1..] == rest;
        [words[0]] + rest
      else rest
  }

  /** `data.split('\n').filter((w) => w.length < 8)`. */
  function HeadlessDictionary(data: string): (dictionary: seq<string>)
    ensures forall k | 0 <= k < |dictionary| ::
      JsLength(dictionary[k]) < MaxWordLength && LineFeed !in dictionary[k]
    ensures forall w :: w in dictionary <==> w in Split(data, LineFeed) && JsLength(w) < MaxWordLength
    ensures forall w ::
      multiset(dictionary)[w] == if JsLength(w) < MaxWordLength then multiset(Split(data, LineFeed))[w] else 0
    ensures IsSubsequence(dictionary, Split(data, LineFeed))
  {
    var parts := Split(data, LineFeed);
    var dictionary := ShortWords(parts);
    assert forall k | 0 <= k < |dictionary| :: LineFeed !in dictionary[k] by {
      forall k | 0 <= k < |dictionary| ensures LineFeed !in dictionary[k] {
        assert dictionary[k] in parts;
      }
    }
    dictionary
  }
}
