/** The string operations the routes rely on: the case-insensitive
    containment behind the `search` parameter, and `startsWith` / `replace`
    applied to the `sort` parameter. */
module Text {
  import opened Wrappers

  /** JavaScript truthiness of an optional string: present and not empty.
      Mongoose's `required` validator accepts a string on the same terms. */
  predicate Truthy(s: Option<string>) {
    s.Some? && s.value != ""
  }

  /** Case folding of one character. Only ASCII letters are folded. */
  function LowerChar(c: char): char {
    if 'A' <= c <= 'Z' then (c as int - 'A' as int + 'a' as int) as char else c
  }

  function Lower(s: string): string {
    seq(|s|, i requires 0 <= i < |s| => LowerChar(s[i]))
  }

  /** Folding twice is folding once, so a pattern that is already folded is
      left as it is. */
  lemma LowerIdempotent(s: string)
    ensures Lower(Lower(s)) == Lower(s)
  {
    assert forall i :: 0 <= i < |s| ==> Lower(Lower(s))[i] == Lower(s)[i];
  }

  /** `p` occurs in `s` starting at index `i`. */
  predicate OccursAt(s: string, p: string, i: nat) {
    i + |p| <= |s| && s[i..i + |p|] == p
  }

  /** `p` is a substring of `s`. */
  predicate Contains(s: string, p: string) {
    exists i :: 0 <= i <= |s| - |p| && OccursAt(s, p, i)
  }

  /** Substring containment after ASCII case folding of both sides. */
  predicate ContainsIgnoreCase(s: string, p: string) {
    Contains(Lower(s), Lower(p))
  }

  /** The pattern matters only up to case: `Foo`, `FOO` and `foo` match the same
      strings. */
  lemma {:induction false} ContainsIgnoreCaseFoldsPattern(s: string, p: string)
    ensures ContainsIgnoreCase(s, p) <==> ContainsIgnoreCase(s, Lower(p))
  {
    LowerIdempotent(p);
  }

  /** Every string contains itself, whatever the case of the pattern. */
  lemma ContainsIgnoreCaseSelf(s: string)
    ensures ContainsIgnoreCase(s, s)
  {
    assert OccursAt(Lower(s), Lower(s), 0);
  }

  /** JavaScript `s.startsWith(p)`. */
  predicate StartsWith(s: string, p: string) {
    |p| <= |s| && s[..|p|] == p
  }

  /** The index of the first occurrence of `c` in `s`. */
  function FirstIndex(s: string, c: char): (k: nat)
    requires c in s
    ensures k < |s| && s[k] == c && c !in s[..k]
  {
    if s[0] == c then 0 else 1 + FirstIndex(s[1..], c)
  }

  /** JavaScript `s.replace(c, '')` with a one-character string pattern: only
      the first occurrence of `c` is removed, wherever it is. */
  function RemoveFirst(s: string, c: char): (r: string)
    ensures c !in s ==> r == s
    ensures c in s ==> r == s[..FirstIndex(s, c)] + s[FirstIndex(s, c) + 1..]
    ensures |r| == if c in s then |s| - 1 else |s|
  {
    if s == [] then s
    else if s[0] == c then s[1..]
    else [s[0]] + RemoveFirst(s[1..], c)
  }

}
