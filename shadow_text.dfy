/** Text helpers shared by both variants of the shadow-table tool: ASCII case
    folding, the case-insensitive shadow-suffix pattern `/(.+)SUFFIX$/i`, and
    the comma lists the tool builds by appending "item," and chopping the last
    character. */
module ShadowText {
  import opened Wrappers

  function LowerChar(c: char): char {
    if 'A' <= c <= 'Z' then (c as int + 32) as char else c
  }

  function UpperChar(c: char): char {
    if 'a' <= c <= 'z' then (c as int - 32) as char else c
  }

  /** Ruby's `String#upcase` on ASCII text. */
  function Upcase(s: string): (r: string)
    ensures |r| == |s|
    ensures forall i :: 0 <= i < |s| ==> r[i] == UpperChar(s[i])
  {
    if s == [] then [] else [UpperChar(s[0])] + Upcase(s[1..])
  }

  /** The two strings are equal when ASCII letters are compared without case. */
  predicate SameIgnoringCase(a: string, b: string) {
    |a| == |b| && forall i :: 0 <= i < |a| ==> LowerChar(a[i]) == LowerChar(b[i])
  }

  /** Characters that would change the meaning of the suffix once it is
      interpolated into a regular expression. */
  const REGEX_METACHARACTERS: string := ".*+?()[]{}|^$\\"

  /** The suffix stands for itself inside `/(.+)SUFFIX$/i`. */
  predicate IsLiteralPattern(suffix: string) {
    forall i :: 0 <= i < |suffix| ==> suffix[i] !in REGEX_METACHARACTERS
  }

  /** A name without a line break: there `$` can only match at the very end. */
  predicate IsSingleLine(name: string) {
    '\n' !in name
  }

  /** The match of `/(.+)SUFFIX$/i` against `name`: the captured group, or
      None when there is no match.  A match splits the name at some position
      k >= 1 whose remainder equals the suffix without regard to case, and the
      capture is everything before k. */
  function ShadowMatch(name: string, suffix: string): (m: Option<string>)
    ensures m.Some? <==> exists k :: 1 <= k <= |name| && SameIgnoringCase(name[k..], suffix)
    ensures forall k :: 1 <= k <= |name| && SameIgnoringCase(name[k..], suffix) ==> m == Some(name[..k])
  {
    if |name| > |suffix| && SameIgnoringCase(name[|name| - |suffix|..], suffix)
    then Some(name[..|name| - |suffix|])
    else None
  }

  /** Ruby's `String#chop` on a string that does not end in "\r\n". */
  function Chop(s: string): string {
    if s == [] then s else s[..|s| - 1]
  }

  /** The concatenation of `item + sep` over all items, which is what the tool
      accumulates with `+=` (or `collect` and `join`). */
  function Terminated(items: seq<string>, sep: string): (r: string)
    ensures sep != "" ==> (r == "" <==> items == [])
  {
    if items == [] then ""
    else Terminated(items[..|items| - 1], sep) + items[|items| - 1] + sep
  }

  /** The items separated by `sep`, with no separator before the first or
      after the last. */
  function Join(items: seq<string>, sep: string): string {
    if items == [] then ""
    else if |items| == 1 then items[0]
    else Join(items[..|items| - 1], sep) + sep + items[|items| - 1]
  }

  lemma TerminatedSnoc(items: seq<string>, x: string, sep: string)
    ensures Terminated(items + [x], sep) == Terminated(items, sep) + x + sep
  {
    assert (items + [x])[..|items|] == items;
  }

  lemma {:induction false} TerminatedIsJoined(items: seq<string>, sep: string)
    requires items != []
    ensures Terminated(items, sep) == Join(items, sep) + sep
  {
    var n := |items|;
    if n == 1 {
      assert items[..0] == [];
    } else {
      TerminatedIsJoined(items[..n - 1], sep);
      assert items[..n - 1][..n - 2] == items[..n - 2];
    }
  }

  /** Chopping the last separator off an accumulated list leaves exactly the
      joined list, and an empty accumulation stays empty. */
  lemma {:induction false} ChopTerminated(items: seq<string>, sep: char)
    ensures Chop(Terminated(items, [sep])) == Join(items, [sep])
  {
    if items != [] {
      TerminatedIsJoined(items, [sep]);
      var j := Join(items, [sep]);
      assert (j + [sep])[..|j + [sep]| - 1] == j;
    }
  }
}
