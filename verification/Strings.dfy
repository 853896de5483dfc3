/** strcmp: the lexicographic order the sorted tables and string trees use. */
module Strings {

  /** Sign of the first difference; a proper prefix comes first. */
  function Strcmp(a: string, b: string): (r: int)
  {
    if a == [] then (if b == [] then 0 else -1)
    else if b == [] then 1
    else if a[0] < b[0] then -1
    else if b[0] < a[0] then 1
    else Strcmp(a[1..], b[1..])
  }

  predicate Less(a: string, b: string) { Strcmp(a, b) < 0 }

  lemma {:induction false} StrcmpZero(a: string, b: string)
    ensures Strcmp(a, b) == 0 <==> a == b
  {
    if a != [] && b != [] && a[0] == b[0] {
      StrcmpZero(a[1..], b[1..]);
      assert a == [a[0]] + a[1..] && b == [b[0]] + b[1..];
    }
  }

  lemma {:induction false} StrcmpFlip(a: string, b: string)
    ensures Strcmp(a, b) < 0 <==> Strcmp(b, a) > 0
  {
    if a != [] && b != [] && a[0] == b[0] {
      StrcmpFlip(a[1..], b[1..]);
    }
  }

  lemma {:induction false} LessTransitive(a: string, b: string, c: string)
    requires Less(a, b) && Less(b, c)
    ensures Less(a, c)
  {
    if a != [] && b != [] && c != [] && a[0] == b[0] == c[0] {
      LessTransitive(a[1..], b[1..], c[1..]);
    }
  }

  /** Exactly one of the three relations holds. */
  lemma Trichotomy(a: string, b: string)
    ensures Less(a, b) || a == b || Less(b, a)
    ensures !(Less(a, b) && a == b) && !(Less(a, b) && Less(b, a)) && !(a == b && Less(b, a))
  {
    StrcmpZero(a, b);
    StrcmpFlip(a, b);
    StrcmpFlip(b, a);
  }
}
