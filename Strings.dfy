/** The three JavaScript string built-ins the switcher relies on:
    `toLowerCase`, `includes` and `localeCompare`. Strings are sequences of
    Unicode code points (Dafny `char`s), where JavaScript's are sequences of
    UTF-16 code units; the two agree on characters up to U+FFFF. */
module Strings {

  /** Lower-cases one character. Only the ASCII letters A-Z are folded. */
  function LowerChar(c: char): (r: char)
    ensures !('A' <= r <= 'Z')
    ensures c != r ==> 'A' <= c <= 'Z' && r as int - c as int == 'a' as int - 'A' as int
  {
    if 'A' <= c <= 'Z' then (c as int - 'A' as int + 'a' as int) as char else c
  }

  /** `s.toLowerCase()`: folds every character, keeping the length. */
  function ToLower(s: string): (r: string)
    ensures |r| == |s|
    ensures forall i :: 0 <= i < |s| ==> r[i] == LowerChar(s[i])
  {
    if s == [] then [] else [LowerChar(s[0])] + ToLower(s[1..])
  }

  predicate NoUpper(s: string) {
    forall i :: 0 <= i < |s| ==> !('A' <= s[i] <= 'Z')
  }

  /** Folding leaves no upper-case letter behind, and folding twice is folding once. */
  lemma ToLowerIdempotent(s: string)
    ensures NoUpper(ToLower(s))
    ensures ToLower(ToLower(s)) == ToLower(s)
  {
    var t := ToLower(s);
    forall i | 0 <= i < |t| ensures ToLower(t)[i] == t[i] {
      assert LowerChar(t[i]) == t[i];
    }
  }

  predicate StartsWith(s: string, prefix: string) {
    |prefix| <= |s| && s[..|prefix|] == prefix
  }

  /** `s.includes(sub)`: `sub` starts at some position of `s`. The empty
      string is included in every string. */
  predicate Includes(s: string, sub: string)
    decreases |s|
  {
    StartsWith(s, sub) || (|s| > 0 && Includes(s[1..], sub))
  }

  /** `sub` occurs in `s` starting at index `i`. */
  ghost predicate OccursAt(s: string, sub: string, i: int) {
    0 <= i && i + |sub| <= |s| && s[i..i + |sub|] == sub
  }

  /** The scanning definition of `Includes` agrees with the positional one,
      in both directions. */
  lemma {:induction false} IncludesIff(s: string, sub: string)
    ensures Includes(s, sub) <==> exists i :: OccursAt(s, sub, i)
    decreases |s|
  {
    if Includes(s, sub) {
      if StartsWith(s, sub) {
        assert OccursAt(s, sub, 0);
      } else {
        IncludesIff(s[1..], sub);
        var i :| OccursAt(s[1..], sub, i);
        assert s[1..][i..i + |sub|] == s[i + 1..i + 1 + |sub|];
        assert OccursAt(s, sub, i + 1);
      }
    }
    if exists i :: OccursAt(s, sub, i) {
      var i :| OccursAt(s, sub, i);
      if i > 0 {
        assert s[1..][i - 1..i - 1 + |sub|] == s[i..i + |sub|];
        assert OccursAt(s[1..], sub, i - 1);
        IncludesIff(s[1..], sub);
      } else {
        assert StartsWith(s, sub);
      }
    }
  }

  /** Every string includes the empty string, and nothing longer than itself. */
  lemma {:induction false} IncludesBounds(s: string, sub: string)
    ensures sub == [] ==> Includes(s, sub)
    ensures |sub| > |s| ==> !Includes(s, sub)
  {
    IncludesIff(s, sub);
    if sub == [] {
      assert OccursAt(s, sub, 0);
    }
  }

  /** `a.localeCompare(b)`, modelled as lexicographic order on code points:
      negative, zero or positive as `a` sorts before, with or after `b`. */
  function Compare(a: string, b: string): (r: int)
    ensures -1 <= r <= 1
  {
    if a == [] && b == [] then 0
    else if a == [] then -1
    else if b == [] then 1
    else if a[0] < b[0] then -1
    else if a[0] > b[0] then 1
    else Compare(a[1..], b[1..])
  }

  /** Only equal strings compare equal. */
  lemma {:induction false} CompareZeroIff(a: string, b: string)
    ensures Compare(a, b) == 0 <==> a == b
  {
    if a != [] && b != [] && a[0] == b[0] {
      CompareZeroIff(a[1..], b[1..]);
      assert a == [a[0]] + a[1..] && b == [b[0]] + b[1..];
    }
  }

  /** Swapping the arguments negates the comparison. */
  lemma {:induction false} CompareAntisymmetric(a: string, b: string)
    ensures Compare(a, b) == -Compare(b, a)
  {
    if a != [] && b != [] && a[0] == b[0] {
      CompareAntisymmetric(a[1..], b[1..]);
    }
  }

  /** "Sorts no later than" is transitive. */
  lemma {:induction false} CompareTransitive(a: string, b: string, c: string)
    requires Compare(a, b) <= 0 && Compare(b, c) <= 0
    ensures Compare(a, c) <= 0
  {
    if a != [] && b != [] && c != [] && a[0] == b[0] == c[0] {
      CompareTransitive(a[1..], b[1..], c[1..]);
    }
  }
}
