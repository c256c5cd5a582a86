/** Values shared by every route: optional values, request-body fields and ASCII lower-casing. */
module Common {

  datatype Option<+T> = None | Some(value: T)

  function Min(a: int, b: int): int
  {
    if a <= b then a else b
  }

  /** A request-body field is usable when it is present and not the empty string (JavaScript truthiness). */
  predicate Filled(field: Option<string>)
  {
    field.Some? && field.value != ""
  }

  predicate IsUpperChar(c: char)
  {
    'A' <= c <= 'Z'
  }

  /** String.prototype.toLowerCase restricted to ASCII letters. */
  function LowerChar(c: char): char
  {
    if IsUpperChar(c) then (c as int - 'A' as int + 'a' as int) as char else c
  }

  predicate IsLower(s: string)
  {
    forall i :: 0 <= i < |s| ==> !IsUpperChar(s[i])
  }

  function Lower(s: string): (r: string)
    ensures |r| == |s|
    ensures forall i :: 0 <= i < |s| ==> r[i] == LowerChar(s[i])
    ensures IsLower(r)
  {
    if s == [] then [] else [LowerChar(s[0])] + Lower(s[1..])
  }

  /** A string with no upper-case letter is its own lower-case form. */
  lemma LowerOfLower(s: string)
    requires IsLower(s)
    ensures Lower(s) == s
  {
  }

  /** Lower-casing twice is lower-casing once. */
  lemma LowerIdempotent(s: string)
    ensures Lower(Lower(s)) == Lower(s)
  {
    LowerOfLower(Lower(s));
  }

  /** The case-insensitive comparison of a `^name$` regular expression with flag `i`, on ASCII text. */
  predicate EqualsIgnoreCase(a: string, b: string)
  {
    Lower(a) == Lower(b)
  }

  /** Two strings are equal ignoring case exactly when they have the same length and agree letter by letter once lower-cased. */
  lemma EqualsIgnoreCasePointwise(a: string, b: string)
    ensures EqualsIgnoreCase(a, b) <==>
              |a| == |b| && forall i :: 0 <= i < |a| ==> LowerChar(a[i]) == LowerChar(b[i])
  {
  }

  /** Equality ignoring case is an equivalence: reflexive, symmetric and transitive. */
  lemma EqualsIgnoreCaseEquivalence(a: string, b: string, c: string)
    ensures EqualsIgnoreCase(a, a)
    ensures EqualsIgnoreCase(a, b) ==> EqualsIgnoreCase(b, a)
    ensures EqualsIgnoreCase(a, b) && EqualsIgnoreCase(b, c) ==> EqualsIgnoreCase(a, c)
  {
  }
}
