/** Lexicographic order of strings, comparing characters by code point. */
module Lex {

  /** `a` sorts strictly before `b`: at the first difference `a` has the smaller character, or `a` is a proper prefix of `b`. */
  predicate Less(a: seq<char>, b: seq<char>) {
    || (exists k :: 0 <= k < |a| && k < |b| && a[..k] == b[..k] && a[k] < b[k])
    || (|a| < |b| && a == b[..|a|])
  }
}
