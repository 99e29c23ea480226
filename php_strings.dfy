/**
 * The few PHP string built-ins the plugin relies on, over `seq<char>`:
 * a last-occurrence search (the scan behind `pathinfo` and the `$`-anchored
 * regex), ASCII `strtolower`, and `str_replace` with one search string.
 */
module PhpStrings {

  /** Index of the last `c` in `s`, or -1 when `c` does not occur (`strrpos`, with -1 for `false`). */
  function LastIndexOf(s: string, c: char): (i: int)
    ensures -1 <= i < |s|
    decreases |s|
  {
    if s == [] then -1
    else if s[|s| - 1] == c then |s| - 1
    else LastIndexOf(s[..|s| - 1], c)
  }

  /** The index found holds `c`, and no `c` follows it. */
  lemma {:induction false} LastIndexOfIsLast(s: string, c: char)
    ensures var i := LastIndexOf(s, c);
      && (i >= 0 ==> s[i] == c)
      && forall j :: i < j < |s| ==> s[j] != c
    decreases |s|
  {
    if s != [] && s[|s| - 1] != c {
      var t := s[..|s| - 1];
      LastIndexOfIsLast(t, c);
      assert forall j :: 0 <= j < |t| ==> t[j] == s[j];
    }
  }

  /** `strtolower` on one character: only the ASCII letters A-Z change. */
  function LowerChar(c: char): char {
    if 'A' <= c <= 'Z' then (c as int + 32) as char else c
  }

  /** `strtolower`: byte-wise ASCII lower-casing, length preserved. */
  function ToLower(s: string): (r: string)
    ensures |r| == |s|
    ensures forall i :: 0 <= i < |s| ==> r[i] == LowerChar(s[i])
  {
    if s == [] then [] else [LowerChar(s[0])] + ToLower(s[1..])
  }

  /** `find` occurs in `s` starting at index `i`. */
  ghost predicate OccursAt(s: string, find: string, i: int) {
    0 <= i && i + |find| <= |s| && s[i..i + |find|] == find
  }

  /**
   * `str_replace(find, repl, s)`: every non-overlapping occurrence of `find`,
   * scanning left to right, is replaced by `repl`; an empty `find` leaves `s` as is.
   */
  function ReplaceAll(s: string, find: string, repl: string): string
    decreases |s|
  {
    if find == [] || |s| < |find| then s
    else if find <= s then repl + ReplaceAll(s[|find|..], find, repl)
    else [s[0]] + ReplaceAll(s[1..], find, repl)
  }

  /** A string in which `find` does not occur comes back unchanged. */
  lemma {:induction false} ReplaceAllAbsent(s: string, find: string, repl: string)
    requires forall i :: !OccursAt(s, find, i)
    ensures ReplaceAll(s, find, repl) == s
    decreases |s|
  {
    if find == [] || |s| < |find| {
    } else {
      assert !OccursAt(s, find, 0);
      assert s[..|find|] == s[0..0 + |find|];
      forall i ensures !OccursAt(s[1..], find, i) {
        if OccursAt(s[1..], find, i) {
          assert s[1..][i..i + |find|] == s[i + 1..i + 1 + |find|];
          assert OccursAt(s, find, i + 1);
        }
      }
      ReplaceAllAbsent(s[1..], find, repl);
    }
  }

  /**
   * The base-URL case: a string that starts with a non-empty `find` and holds
   * no further occurrence becomes `repl` followed by the rest.
   */
  lemma ReplaceAllLeading(find: string, rest: string, repl: string)
    requires find != []
    requires forall i :: !OccursAt(rest, find, i)
    ensures ReplaceAll(find + rest, find, repl) == repl + rest
  {
    var s := find + rest;
    assert s[..|find|] == find;
    assert s[|find|..] == rest;
    ReplaceAllAbsent(rest, find, repl);
  }
}
