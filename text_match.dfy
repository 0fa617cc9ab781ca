/** Case-insensitive substring matching, as the store evaluates
    `title ILIKE '%' || keyword || '%'`: both sides are lower-cased (ASCII only)
    and the keyword is looked for as a contiguous substring. */
module TextMatch {

  function LowerChar(c: char): char {
    if 'A' <= c <= 'Z' then (c as int - 'A' as int + 'a' as int) as char else c
  }

  /** Lower-cases character by character; the length is kept. */
  function Lower(s: string): (r: string)
    ensures |r| == |s|
    ensures forall i | 0 <= i < |s| :: r[i] == LowerChar(s[i])
  {
    if s == [] then [] else [LowerChar(s[0])] + Lower(s[1..])
  }

  /** `needle` occurs in `hay` starting at position `i`. */
  ghost predicate OccursAt(needle: string, hay: string, i: int) {
    0 <= i && i + |needle| <= |hay| && hay[i..i + |needle|] == needle
  }

  /** Exact substring search. */
  function Contains(hay: string, needle: string): (r: bool)
    ensures r <==> exists i :: OccursAt(needle, hay, i)
    decreases |hay|
  {
    if |needle| > |hay| then false
    else if hay[..|needle|] == needle then
      assert OccursAt(needle, hay, 0);
      true
    else
      var rest := Contains(hay[1..], needle);
      ShiftOccurrence(needle, hay);
      rest
  }

  /** Occurrences in `hay[1..]` are the occurrences in `hay` after position 0. */
  lemma ShiftOccurrence(needle: string, hay: string)
    requires |hay| > 0
    ensures (exists i :: OccursAt(needle, hay, i)) <==>
            OccursAt(needle, hay, 0) || exists j :: OccursAt(needle, hay[1..], j)
  {
    forall j | OccursAt(needle, hay[1..], j) ensures OccursAt(needle, hay, j + 1) {
      assert hay[1..][j..j + |needle|] == hay[j + 1..j + 1 + |needle|];
    }
    forall i | OccursAt(needle, hay, i) && i > 0 ensures OccursAt(needle, hay[1..], i - 1) {
      assert hay[1..][i - 1..i - 1 + |needle|] == hay[i..i + |needle|];
    }
  }

  /** `keyword` occurs in `text` at position `i` when letter case is ignored. */
  ghost predicate OccursIgnoringCaseAt(keyword: string, text: string, i: int) {
    && 0 <= i && i + |keyword| <= |text|
    && forall j | 0 <= j < |keyword| :: LowerChar(text[i + j]) == LowerChar(keyword[j])
  }

  /** The ILIKE `%keyword%` test: true exactly when the keyword occurs
      somewhere in the text, ignoring ASCII letter case. */
  function ContainsIgnoringCase(text: string, keyword: string): (r: bool)
    ensures r <==> exists i :: OccursIgnoringCaseAt(keyword, text, i)
  {
    var lt, lk := Lower(text), Lower(keyword);
    LoweredOccurrence(keyword, text);
    Contains(lt, lk)
  }

  lemma LoweredOccurrence(keyword: string, text: string)
    ensures forall i :: OccursAt(Lower(keyword), Lower(text), i) <==> OccursIgnoringCaseAt(keyword, text, i)
  {
  }
}
