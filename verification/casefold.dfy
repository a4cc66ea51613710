/** `String.equalsIgnoreCase`, restricted to the ASCII letters. */
module CaseFold {

  function Lower(c: char): char
  {
    if 'A' <= c <= 'Z' then (c as int + 32) as char else c
  }

  function Upper(c: char): char
  {
    if 'a' <= c <= 'z' then (c as int - 32) as char else c
  }

  function ToLower(s: string): string
  {
    seq(|s|, i requires 0 <= i < |s| => Lower(s[i]))
  }

  function ToUpper(s: string): string
  {
    seq(|s|, i requires 0 <= i < |s| => Upper(s[i]))
  }

  /** The per-character test of `String.regionMatches(true, ...)`: equal, equal
      upper-cased, or equal lower-cased after upper-casing. */
  predicate CharsMatch(a: char, b: char)
  {
    a == b || Upper(a) == Upper(b) || Lower(Upper(a)) == Lower(Upper(b))
  }

  predicate EqualsIgnoreCase(a: string, b: string)
  {
    |a| == |b| && forall i :: 0 <= i < |a| ==> CharsMatch(a[i], b[i])
  }

  lemma CharsMatchIff(a: char, b: char)
    ensures CharsMatch(a, b) <==> Lower(a) == Lower(b)
  {
  }

  /** Two strings are equal ignoring case exactly when their lower-case forms are equal. */
  lemma EqualsIgnoreCaseIff(a: string, b: string)
    ensures EqualsIgnoreCase(a, b) <==> ToLower(a) == ToLower(b)
  {
    if EqualsIgnoreCase(a, b) {
      forall i | 0 <= i < |a| ensures ToLower(a)[i] == ToLower(b)[i] {
        CharsMatchIff(a[i], b[i]);
      }
    }
    if ToLower(a) == ToLower(b) {
      assert |a| == |ToLower(a)|;
      forall i | 0 <= i < |a| ensures CharsMatch(a[i], b[i]) {
        assert ToLower(a)[i] == ToLower(b)[i];
        CharsMatchIff(a[i], b[i]);
      }
    }
  }

  /** Ignoring case is an equivalence relation. */
  lemma EqualsIgnoreCaseEquivalence(a: string, b: string, c: string)
    ensures EqualsIgnoreCase(a, a)
    ensures EqualsIgnoreCase(a, b) ==> EqualsIgnoreCase(b, a)
    ensures EqualsIgnoreCase(a, b) && EqualsIgnoreCase(b, c) ==> EqualsIgnoreCase(a, c)
  {
    EqualsIgnoreCaseIff(a, a);
    EqualsIgnoreCaseIff(a, b);
    EqualsIgnoreCaseIff(b, a);
    EqualsIgnoreCaseIff(b, c);
    EqualsIgnoreCaseIff(a, c);
  }

  /** Changing the case of one side never changes the verdict. */
  lemma EqualsIgnoreCaseOfCaseChange(g: string, a: string)
    ensures EqualsIgnoreCase(ToUpper(g), a) <==> EqualsIgnoreCase(g, a)
    ensures EqualsIgnoreCase(ToLower(g), a) <==> EqualsIgnoreCase(g, a)
  {
    assert ToLower(ToUpper(g)) == ToLower(g);
    assert ToLower(ToLower(g)) == ToLower(g);
    EqualsIgnoreCaseIff(ToUpper(g), a);
    EqualsIgnoreCaseIff(ToLower(g), a);
    EqualsIgnoreCaseIff(g, a);
  }

  /** The hint prompt's `equalsIgnoreCase("y")` accepts exactly `y` and `Y`. */
  lemma IgnoreCaseSingleLetter(r: string)
    ensures EqualsIgnoreCase(r, "y") <==> r == "y" || r == "Y"
    ensures EqualsIgnoreCase(r, "n") <==> r == "n" || r == "N"
  {
    if |r| == 1 {
      CharsMatchIff(r[0], 'y');
      CharsMatchIff(r[0], 'n');
      assert r == [r[0]];
    }
  }
}
