/** How `makeRequest` turns the lookup service's newline-delimited response into
    the text of a JSON array: every line feed becomes a comma, the last character
    is dropped and the rest is wrapped in brackets. Both scripts do the same. */
module Framing {
  import opened JsString

  /** The framed text handed to `JSON.parse`. */
  function Frame(text: string): (json: string)
    ensures |json| >= 2 && json[0] == '[' && json[|json| - 1] == ']'
    ensures LineFeed !in json
    ensures |json| == if text == [] then 2 else |text| + 1
  {
    var withCommas := ReplaceAll(text, LineFeed, ',');
    "[" + SliceTo(withCommas, |withCommas| - 1) + "]"
  }

  /** A response made of lines, each ending in a line feed. */
  function Terminated(lines: seq<string>): string
  {
    if lines == [] then [] else lines[0] + [LineFeed] + Terminated(lines[1..])
  }

  lemma ReplaceAllAppend(a: string, b: string, from: char, to: char)
    ensures ReplaceAll(a + b, from, to) == ReplaceAll(a, from, to) + ReplaceAll(b, from, to)
  {
  }

  lemma ReplaceAllAbsent(a: string, from: char, to: char)
    requires from !in a
    ensures ReplaceAll(a, from, to) == a
  {
  }

  /** Replacing the terminators of non-empty lines gives the comma-joined lines
      followed by one trailing comma. */
  lemma {:induction false} CommasOfTerminated(lines: seq<string>)
    requires lines != []
    requires forall k | 0 <= k < |lines| :: LineFeed !in lines[k]
    ensures ReplaceAll(Terminated(lines), LineFeed, ',') == Join(lines, ',') + [',']
  {
    var head := lines[0] + [LineFeed];
    ReplaceAllAppend(head, Terminated(lines[1..]), LineFeed, ',');
    ReplaceAllAppend(lines[0], [LineFeed], LineFeed, ',');
    ReplaceAllAbsent(lines[0], LineFeed, ',');
    assert ReplaceAll(head, LineFeed, ',') == lines[0] + [','];
    if |lines| == 1 {
      assert Terminated(lines[1..]) == [];
    } else {
      CommasOfTerminated(lines[1..]);
    }
  }

  /** A response of lines l1 … ln, each ending in a line feed, frames to
      `[l1,…,ln]`; no lines frame to `[]`. */
  lemma {:induction false} FrameOfLines(lines: seq<string>)
    requires forall k | 0 <= k < |lines| :: LineFeed !in lines[k]
    ensures Frame(Terminated(lines)) == "[" + Join(lines, ',') + "]"
  {
    if lines != [] {
      CommasOfTerminated(lines);
      var withCommas := Join(lines, ',') + [','];
      assert SliceTo(withCommas, |withCommas| - 1) == Join(lines, ',');
    }
  }
}
