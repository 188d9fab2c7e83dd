/** The few JavaScript string built-ins the two scanner scripts rely on:
    `length` and `charCodeAt` (UTF-16 code units), `toLowerCase`, `split`,
    `replace(/\n/g, …)` and `slice(0, end)`. Strings are Dafny strings, that is
    sequences of Unicode scalar values; where JavaScript counts UTF-16 code
    units, the code units are computed explicitly by `Utf16`. */
module JsString {

  /** A value or JavaScript's `undefined`. */
  datatype Option<T> = None | Some(value: T)

  const LineFeed: char := '\n'

  /** The UTF-16 code units of one character, as `charCodeAt` reports them:
      one unit for the Basic Multilingual Plane, a surrogate pair otherwise. */
  function CodeUnits(c: char): (units: seq<int>)
    ensures |units| == 1 <==> (c as int) < 0x1_0000
    ensures 1 <= |units| <= 2
    ensures forall k | 0 <= k < |units| :: 0 <= units[k] < 0x1_0000
  {
    var v := c as int;
    if v < 0x1_0000 then [v]
    else [0xD800 + (v - 0x1_0000) / 0x400, 0xDC00 + (v - 0x1_0000) % 0x400]
  }

  /** The inverse of `CodeUnits`: the scalar value a code unit or a pair denotes. */
  function DecodeUnits(units: seq<int>): int
    requires 1 <= |units| <= 2
  {
    if |units| == 1 then units[0]
    else 0x1_0000 + (units[0] - 0xD800) * 0x400 + (units[1] - 0xDC00)
  }

  /** Encoding a character and decoding it again gives the character back, and a
      pair is always a high surrogate followed by a low surrogate. */
  lemma CodeUnitsRoundTrip(c: char)
    ensures DecodeUnits(CodeUnits(c)) == c as int
    ensures |CodeUnits(c)| == 2 ==>
      0xD800 <= CodeUnits(c)[0] < 0xDC00 && 0xDC00 <= CodeUnits(c)[1] < 0xE000
  {
    var v := c as int;
    if 0x1_0000 <= v {
      var d := v - 0x1_0000;
      assert d == (d / 0x400) * 0x400 + d % 0x400;
    }
  }

  /** The UTF-16 code units of a string: what `s.length` counts and what
      `s.charCodeAt(o)` returns for `o < s.length`. */
  function Utf16(s: string): (units: seq<int>)
    ensures |s| <= |units| <= 2 * |s|
    ensures forall k | 0 <= k < |units| :: 0 <= units[k] < 0x1_0000
  {
    if s == [] then [] else CodeUnits(s[0]) + Utf16(s[1..])
  }

  /** The code units of a concatenation are the code units of its parts, in order. */
  lemma {:induction false} Utf16Append(a: string, b: string)
    ensures Utf16(a + b) == Utf16(a) + Utf16(b)
  {
    if a == [] {
      assert a + b == b;
    } else {
      var ab := a + b;
      assert ab[0] == a[0] && ab[1..] == a[1..] + b;
      Utf16Append(a[1..], b);
      calc {
        Utf16(ab);
        CodeUnits(a[0]) + Utf16(a[1..] + b);
        CodeUnits(a[0]) + (Utf16(a[1..]) + Utf16(b));
        (CodeUnits(a[0]) + Utf16(a[1..])) + Utf16(b);
      }
    }
  }

  /** JavaScript's `s.length`: at least one and at most two units per character. */
  function JsLength(s: string): (n: nat)
    ensures |s| <= n <= 2 * |s|
  {
    |Utf16(s)|
  }

  /** A string of Basic Multilingual Plane characters has one code unit per
      character, the character's own code, so its JavaScript length is its Dafny
      length and `charCodeAt(k)` is the code of its `k`-th character. */
  lemma {:induction false} BmpLength(s: string)
    requires forall k | 0 <= k < |s| :: (s[k] as int) < 0x1_0000
    ensures Utf16(s) == seq(|s|, k requires 0 <= k < |s| => s[k] as int)
    ensures JsLength(s) == |s|
  {
    if s != [] {
      BmpLength(s[1..]);
      assert Utf16(s) == [s[0] as int] + Utf16(s[1..]);
    }
  }

  /** A character outside the Basic Multilingual Plane makes the JavaScript length
      exceed the Dafny length, so `BmpLength` holds exactly for such strings. */
  lemma {:induction false} AstralLonger(s: string, k: nat)
    requires k < |s| && 0x1_0000 <= (s[k] as int)
    ensures JsLength(s) > |s|
  {
    assert s == s[..k] + ([s[k]] + s[k + 1..]);
    Utf16Append(s[..k], [s[k]] + s[k + 1..]);
    assert Utf16([s[k]] + s[k + 1..]) == CodeUnits(s[k]) + Utf16(s[k + 1..]);
  }

  predicate IsUpper(c: char)
  {
    'A' <= c <= 'Z'
  }

  function LowerChar(c: char): (d: char)
    ensures !IsUpper(d)
    ensures !IsUpper(c) ==> d == c
    ensures IsUpper(c) ==> d as int == c as int + 32
  {
    if IsUpper(c) then (c as int + 32) as char else c
  }

  /** `s.toLowerCase()`, restricted to the ASCII letters A to Z. */
  function ToLower(s: string): (r: string)
    ensures |r| == |s|
    ensures forall k | 0 <= k < |r| :: !IsUpper(r[k])
    ensures forall k | 0 <= k < |s| :: !IsUpper(s[k]) ==> r[k] == s[k]
    ensures forall k | 0 <= k < |s| :: IsUpper(s[k]) ==> r[k] as int == s[k] as int + 32
  {
    seq(|s|, k requires 0 <= k < |s| => LowerChar(s[k]))
  }

  /** Lower-casing twice is lower-casing once. */
  lemma ToLowerIdempotent(s: string)
    ensures ToLower(ToLower(s)) == ToLower(s)
  {
  }

  /** The number of occurrences of `c` in `s`. */
  function Count(s: string, c: char): (n: nat)
    ensures n <= |s|
    ensures n == 0 <==> c !in s
  {
    if s == [] then 0 else (if s[0] == c then 1 else 0) + Count(s[1..], c)
  }

  /** `s.split(sep)` for a one-character separator. */
  function Split(s: string, sep: char): (parts: seq<string>)
    ensures |parts| == Count(s, sep) + 1
    ensures forall k | 0 <= k < |parts| :: sep !in parts[k]
  {
    if s == [] then [[]]
    else
      var rest := Split(s[1..], sep);
      if s[0] == sep then [[]] + rest
      else [[s[0]] + rest[0]] + rest[1..]
  }

  /** `parts.join(sep)`: the reference definition `Split` is checked against. */
  function Join(parts: seq<string>, sep: char): string
  {
    if parts == [] then []
    else if |parts| == 1 then parts[0]
    else parts[0] + [sep] + Join(parts[1..], sep)
  }

  /** Splitting and joining again gives back the text. */
  lemma {:induction false} JoinSplit(s: string, sep: char)
    ensures Join(Split(s, sep), sep) == s
  {
    if s != [] {
      var rest := Split(s[1..], sep);
      JoinSplit(s[1..], sep);
      if s[0] == sep {
        assert Split(s, sep) == [[]] + rest;
        assert s == [] + [sep] + s[1..];
      } else {
        var parts := Split(s, sep);
        assert parts == [[s[0]] + rest[0]] + rest[1..];
        if |rest| == 1 {
          assert s == [s[0]] + rest[0];
        } else {
          assert Join(rest, sep) == rest[0] + [sep] + Join(rest[1..], sep);
          assert parts[1..] == rest[1..];
          assert s == [s[0]] + rest[0] + [sep] + Join(rest[1..], sep);
        }
      }
    }
  }

  lemma {:induction false} SplitWithoutSeparator(w: string, sep: char)
    requires sep !in w
    ensures Split(w, sep) == [w]
  {
    if w != [] {
      SplitWithoutSeparator(w[1..], sep);
      assert [w[0]] + w[1..] == w;
    }
  }

  /** One step of `Split`: how the first character extends the split of the rest. */
  lemma SplitCons(c: char, s: string, sep: char)
    ensures Split([c] + s, sep) ==
      if c == sep then [[]] + Split(s, sep) else [[c] + Split(s, sep)[0]] + Split(s, sep)[1..]
  {
    assert ([c] + s)[0] == c && ([c] + s)[1..] == s;
  }

  lemma {:induction false} SplitAfterWord(w: string, sep: char, t: string)
    requires sep !in w
    ensures Split(w + [sep] + t, sep) == [w] + Split(t, sep)
  {
    if w == [] {
      assert w + [sep] + t == [sep] + t;
      SplitCons(sep, t, sep);
    } else {
      var tail := w[1..] + [sep] + t;
      SplitAfterWord(w[1..], sep, t);
      assert w + [sep] + t == [w[0]] + tail;
      SplitCons(w[0], tail, sep);
      assert [w[0]] + w[1..] == w;
    }
  }

  /** Joining parts that do not contain the separator and splitting again gives
      back the parts. */
  lemma {:induction false} SplitJoin(parts: seq<string>, sep: char)
    requires parts != []
    requires forall k | 0 <= k < |parts| :: sep !in parts[k]
    ensures Split(Join(parts, sep), sep) == parts
  {
    if |parts| == 1 {
      SplitWithoutSeparator(parts[0], sep);
    } else {
      SplitJoin(parts[1..], sep);
      SplitAfterWord(parts[0], sep, Join(parts[1..], sep));
      assert [parts[0]] + parts[1..] == parts;
    }
  }

  /** `s.replace(/from/g, to)` for a single character `from`. */
  function ReplaceAll(s: string, from: char, to: char): (r: string)
    ensures |r| == |s|
    ensures from != to ==> from !in r
    ensures forall k | 0 <= k < |s| :: s[k] != from ==> r[k] == s[k]
    ensures forall k | 0 <= k < |s| :: s[k] == from ==> r[k] == to
  {
    seq(|s|, k requires 0 <= k < |s| => if s[k] == from then to else s[k])
  }

  /** `s.slice(0, end)` on a string or an array: a negative end counts from the
      end, and the end is clamped to the length. */
  function SliceTo<T>(s: seq<T>, end: int): (r: seq<T>)
    ensures |r| == (if end < 0 then (if |s| + end < 0 then 0 else |s| + end)
                    else if end < |s| then end else |s|)
    ensures r <= s
  {
    var stop := if end < 0 then (if |s| + end < 0 then 0 else |s| + end)
                else if end < |s| then end else |s|;
    s[..stop]
  }
}
