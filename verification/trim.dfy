/** Java's `String.trim`: strips every character at or below U+0020 from both ends. */
module JavaTrim {

  predicate IsBlank(c: char)
  {
    c <= ' '
  }

  predicate AllBlank(s: string)
  {
    forall i :: 0 <= i < |s| ==> IsBlank(s[i])
  }

  /** Number of blank characters at the start of `s`. */
  function Lead(s: string): (n: nat)
    ensures n <= |s|
    ensures AllBlank(s[..n])
    ensures n < |s| ==> !IsBlank(s[n])
  {
    if s == [] || !IsBlank(s[0]) then 0 else 1 + Lead(s[1..])
  }

  /** Number of blank characters at the end of `s`. */
  function Trail(s: string): (n: nat)
    ensures n <= |s|
    ensures AllBlank(s[|s| - n..])
    ensures n < |s| ==> !IsBlank(s[|s| - 1 - n])
  {
    if s == [] || !IsBlank(s[|s| - 1]) then 0 else 1 + Trail(s[..|s| - 1])
  }

  /** First the leading blanks go, then the trailing blanks of what is left. */
  function Trim(s: string): string
  {
    var t := s[Lead(s)..];
    t[..|t| - Trail(t)]
  }

  /** What `trim` promises: the result has no blank at either end. */
  predicate Trimmed(r: string)
  {
    r == [] || (!IsBlank(r[0]) && !IsBlank(r[|r| - 1]))
  }

  lemma {:induction false} LeadOf(p: string, rest: string)
    requires AllBlank(p)
    requires rest == [] || !IsBlank(rest[0])
    ensures Lead(p + rest) == |p|
  {
    if p != [] {
      assert (p + rest)[1..] == p[1..] + rest;
      LeadOf(p[1..], rest);
    } else {
      assert p + rest == rest;
    }
  }

  lemma {:induction false} TrailOf(rest: string, q: string)
    requires AllBlank(q)
    requires rest == [] || !IsBlank(rest[|rest| - 1])
    ensures Trail(rest + q) == |q|
  {
    if q != [] {
      assert (rest + q)[..|rest + q| - 1] == rest + q[..|q| - 1];
      TrailOf(rest, q[..|q| - 1]);
    } else {
      assert rest + q == rest;
    }
  }

  /** `s` holds `r` at position `i`, with nothing but blanks before and after it. */
  predicate PaddedAt(s: string, r: string, i: nat)
  {
    i + |r| <= |s| && s[i..i + |r|] == r && AllBlank(s[..i]) && AllBlank(s[i + |r|..])
  }

  /** The result of `Trim` is trimmed, and only the leading and trailing blanks
      were removed. */
  lemma TrimShape(s: string)
    ensures Trimmed(Trim(s))
    ensures PaddedAt(s, Trim(s), Lead(s))
  {
    var k := Lead(s);
    var t := s[k..];
    var n := Trail(t);
    assert t == [] || !IsBlank(t[0]);
    CutIsTrimmed(t, n);
    CutIsPadded(s, k, n);
  }

  /** Cutting a blank tail of `n` characters off a string that starts with a
      non-blank, where the `n+1`-th last character is not blank, leaves a trimmed
      string. */
  lemma CutIsTrimmed(t: string, n: nat)
    requires n <= |t| && (t == [] || !IsBlank(t[0]))
    requires n < |t| ==> !IsBlank(t[|t| - 1 - n])
    ensures Trimmed(t[..|t| - n])
  {
  }

  /** The middle of `s`, between `k` blanks and a blank tail, sits in `s` at `k`. */
  lemma CutIsPadded(s: string, k: nat, n: nat)
    requires k <= |s| && n <= |s| - k
    requires AllBlank(s[..k]) && AllBlank(s[k..][|s| - k - n..])
    ensures PaddedAt(s, s[k..][..|s| - k - n], k)
  {
    var t := s[k..];
    var r := t[..|t| - n];
    assert s[k..k + |r|] == r;
    assert s[k + |r|..] == t[|t| - n..];
  }

  /** A trimmed string padded with blanks trims back to itself. */
  lemma TrimOfPadded(s: string, r: string, i: nat)
    requires PaddedAt(s, r, i) && Trimmed(r)
    ensures Trim(s) == r
  {
    var p := s[..i];
    var q := s[i + |r|..];
    assert s == p + (r + q);
    if r == [] {
      assert AllBlank(s) by {
        forall j | 0 <= j < |s| ensures IsBlank(s[j]) {
          if j < i { assert s[j] == p[j]; } else { assert s[j] == q[j - i]; }
        }
      }
      assert s + [] == s;
      LeadOf(s, []);
    } else {
      LeadOf(p, r + q);
      assert s[i..] == r + q;
      TrailOf(r, q);
      assert (r + q)[..|r|] == r;
    }
  }

  /** `Trim(s) == r` exactly when `s` is `r` with blanks around it and `r` itself
      neither starts nor ends with a blank. */
  lemma TrimCharacterization(s: string, r: string)
    ensures Trim(s) == r <==> Trimmed(r) && exists i: nat :: PaddedAt(s, r, i)
  {
    TrimShape(s);
    if Trimmed(r) && exists i: nat :: PaddedAt(s, r, i) {
      var i: nat :| PaddedAt(s, r, i);
      TrimOfPadded(s, r, i);
    }
  }

  /** Trimming twice is trimming once. */
  lemma TrimIdempotent(s: string)
    ensures Trim(Trim(s)) == Trim(s)
  {
    var r := Trim(s);
    TrimShape(s);
    assert r[0..|r|] == r;
    TrimOfPadded(r, r, 0);
  }
}
