/**
 * The string operations the bot's Python code relies on: `str.lower()`,
 * `needle in hay`, `str.endswith`, and `str.split(sep)[0]`.
 */
module Text {

  /** `str.lower()` restricted to the ASCII letters A-Z. */
  function LowerChar(c: char): char {
    if 'A' <= c <= 'Z' then (c as int + 32) as char else c
  }

  function Lower(s: string): (r: string)
    ensures |r| == |s|
    ensures forall i :: 0 <= i < |s| ==> r[i] == LowerChar(s[i])
  {
    seq(|s|, i requires 0 <= i < |s| => LowerChar(s[i]))
  }

  /** needle occurs in hay starting at index i. */
  predicate OccursAt(needle: string, hay: string, i: int) {
    0 <= i && i + |needle| <= |hay| && hay[i..i + |needle|] == needle
  }

  /**
   * First index at or after `from` where needle occurs in hay (the search
   * behind Python's `in`, `str.find` and `str.split`).
   */
  function FindFrom(hay: string, needle: string, from: nat): (r: Option<nat>)
    decreases |hay| - from
    ensures r.Some? ==> from <= r.value && OccursAt(needle, hay, r.value)
    ensures r.Some? ==> forall j :: from <= j < r.value ==> !OccursAt(needle, hay, j)
    ensures r.None? ==> forall j :: from <= j ==> !OccursAt(needle, hay, j)
  {
    if from + |needle| > |hay| then None
    else if hay[from..from + |needle|] == needle then Some(from)
    else FindFrom(hay, needle, from + 1)
  }

  function Find(hay: string, needle: string): (r: Option<nat>)
    ensures r.Some? ==> OccursAt(needle, hay, r.value)
    ensures r.Some? ==> forall j :: 0 <= j < r.value ==> !OccursAt(needle, hay, j)
    ensures r.None? ==> forall j :: !OccursAt(needle, hay, j)
  {
    FindFrom(hay, needle, 0)
  }

  /** Python's `needle in hay` for strings. */
  predicate Contains(hay: string, needle: string) {
    Find(hay, needle).Some?
  }

  /** An occurrence of a longer needle contains every piece of it. */
  lemma {:induction false} ContainsPiece(hay: string, needle: string, k: nat, n: nat)
    requires Contains(hay, needle) && k + n <= |needle|
    ensures Contains(hay, needle[k..k + n])
  {
    var i := Find(hay, needle).value;
    assert hay[i + k..i + k + n] == needle[k..k + n] by {
      assert hay[i..i + |needle|] == needle;
      forall j | k <= j < k + n ensures hay[i + j] == needle[j] {
        assert hay[i + j] == hay[i..i + |needle|][j];
      }
    }
    assert OccursAt(needle[k..k + n], hay, i + k);
  }

  predicate EndsWith(s: string, suffix: string) {
    |suffix| <= |s| && s[|s| - |suffix|..] == suffix
  }

  /** `s.split(sep)[0]`: the text before the first occurrence of sep. */
  function BeforeFirst(s: string, sep: string): (r: string)
    requires |sep| > 0
    ensures |r| <= |s| && r == s[..|r|]
    ensures !Contains(r, sep)
    ensures !Contains(s, sep) ==> r == s
    ensures Contains(s, sep) ==> OccursAt(sep, s, |r|)
    ensures forall j :: 0 <= j < |r| ==> !OccursAt(sep, s, j)
  {
    match Find(s, sep)
    case None => s
    case Some(k) =>
      assert !Contains(s[..k], sep) by {
        if Contains(s[..k], sep) {
          var j := Find(s[..k], sep).value;
          assert s[..k][j..j + |sep|] == s[j..j + |sep|];
          assert OccursAt(sep, s, j);
        }
      }
      s[..k]
  }

  datatype Option<+T> = None | Some(value: T)
}
