/** Java's `String.split(regex)` for a regex that is a single ordinary character
    (the only kind the game uses: `":"` and `","`). */
module Split {

  /** `n` copies of the character `c`. */
  function Repeat(c: char, n: nat): string
  {
    seq(n, _ => c)
  }

  /** `n` empty fields. */
  function Empties(n: nat): seq<string>
  {
    seq(n, _ => [])
  }

  /** Every field between two occurrences of `sep`, empty ones included: a string
      with `k` separators has `k + 1` fields. */
  function Fields(s: string, sep: char): (fs: seq<string>)
    ensures |fs| >= 1
    ensures forall i :: 0 <= i < |fs| ==> sep !in fs[i]
  {
    if s == [] then [[]]
    else
      var tail := Fields(s[1..], sep);
      if s[0] == sep then [[]] + tail
      else [[s[0]] + tail[0]] + tail[1..]
  }

  /** The fields glued back together with `sep` between neighbours. */
  function Join(fs: seq<string>, sep: char): string
    requires |fs| >= 1
  {
    if |fs| == 1 then fs[0] else fs[0] + [sep] + Join(fs[1..], sep)
  }

  /** Drops the empty fields at the end, as `split` does when no limit is given. */
  function DropTrailingEmpty(fs: seq<string>): (r: seq<string>)
    ensures |r| <= |fs| && r == fs[..|r|]
    ensures r == [] || r[|r| - 1] != []
    ensures forall i :: |r| <= i < |fs| ==> fs[i] == []
  {
    if fs == [] then []
    else if fs[|fs| - 1] == [] then DropTrailingEmpty(fs[..|fs| - 1])
    else fs
  }

  /** `s.split(sep)`: the whole string when `sep` does not occur (so `""` gives one
      empty field), otherwise the fields with the trailing empty ones removed. */
  function JavaSplit(s: string, sep: char): (r: seq<string>)
    ensures forall i :: 0 <= i < |r| ==> sep !in r[i]
    ensures sep !in s ==> r == [s]
    ensures sep in s ==> r == [] || r[|r| - 1] != []
  {
    if sep !in s then [s] else DropTrailingEmpty(Fields(s, sep))
  }

  /** Splitting and joining are inverse: no character is lost by `Fields`. */
  lemma {:induction false} JoinFields(s: string, sep: char)
    ensures Join(Fields(s, sep), sep) == s
  {
    if s != [] {
      JoinFields(s[1..], sep);
      var tail := Fields(s[1..], sep);
      var fs := Fields(s, sep);
      if s[0] == sep {
        assert fs == [[]] + tail;
        assert fs[1..] == tail;
        assert [sep] + s[1..] == s;
      } else if |tail| == 1 {
        assert fs == [[s[0]] + tail[0]];
        assert [s[0]] + s[1..] == s;
      } else {
        assert fs[0] == [s[0]] + tail[0];
        assert fs[1..] == tail[1..];
        assert Join(tail, sep) == tail[0] + [sep] + Join(tail[1..], sep);
        assert [s[0]] + s[1..] == s;
      }
    }
  }

  /** A separator-free prefix only extends the first field. */
  lemma {:induction false} FieldsPrefix(k: string, rest: string, sep: char)
    requires sep !in k
    ensures Fields(k + rest, sep) == [k + Fields(rest, sep)[0]] + Fields(rest, sep)[1..]
  {
    if k == [] {
      assert k + rest == rest;
      var f := Fields(rest, sep);
      assert k + f[0] == f[0];
      assert [f[0]] + f[1..] == f;
    } else {
      FieldsPrefix(k[1..], rest, sep);
      assert (k + rest)[1..] == k[1..] + rest;
      assert [k[0]] + (k[1..] + Fields(rest, sep)[0]) == k + Fields(rest, sep)[0];
    }
  }

  /** Joining separator-free fields and splitting again gives the fields back. */
  lemma {:induction false} FieldsOfJoin(fs: seq<string>, sep: char)
    requires |fs| >= 1
    requires forall i :: 0 <= i < |fs| ==> sep !in fs[i]
    ensures Fields(Join(fs, sep), sep) == fs
  {
    if |fs| == 1 {
      FieldsPrefix(fs[0], [], sep);
      assert fs[0] + [] == fs[0];
    } else {
      FieldsOfJoin(fs[1..], sep);
      var j := Join(fs[1..], sep);
      assert Join(fs, sep) == fs[0] + ([sep] + j);
      FieldsPrefix(fs[0], [sep] + j, sep);
      assert ([sep] + j)[1..] == j;
      assert Fields([sep] + j, sep) == [[]] + fs[1..];
      assert fs[0] + [] == fs[0];
    }
  }

  /** Joining a field followed by `n` empty fields appends `n` separators. */
  lemma {:induction false} JoinEmpties(x: string, n: nat, sep: char)
    ensures Join([x] + Empties(n), sep) == x + Repeat(sep, n)
    decreases n
  {
    if n == 0 {
      assert [x] + Empties(0) == [x];
      assert x + Repeat(sep, 0) == x;
    } else {
      JoinEmpties([], n - 1, sep);
      assert ([x] + Empties(n))[1..] == [[]] + Empties(n - 1);
      assert [] + Repeat(sep, n - 1) == Repeat(sep, n - 1);
      assert [sep] + Repeat(sep, n - 1) == Repeat(sep, n);
    }
  }

  /** Padding fields whose last one is non-empty with empty fields, then dropping
      the trailing empty fields, gives the original fields. */
  lemma {:induction false} DropPadded(r: seq<string>, n: nat)
    requires r != [] && r[|r| - 1] != []
    ensures DropTrailingEmpty(r + Empties(n)) == r
  {
    if n == 0 {
      assert r + Empties(0) == r;
    } else {
      var p := r + Empties(n);
      assert p[|p| - 1] == [];
      assert p[..|p| - 1] == r + Empties(n - 1);
      DropPadded(r, n - 1);
    }
  }

  /** `split` loses only separators at the end of the string: re-joining its fields
      with some number of empty fields restored gives the string back. */
  lemma JavaSplitRoundTrip(s: string, sep: char)
    ensures exists m :: |JavaSplit(s, sep)| + m >= 1 && Join(JavaSplit(s, sep) + Empties(m), sep) == s
  {
    var r := JavaSplit(s, sep);
    if sep !in s {
      assert r + Empties(0) == [s];
    } else {
      var fs := Fields(s, sep);
      var m := |fs| - |r|;
      assert r + Empties(m) == fs;
      JoinFields(s, sep);
    }
  }

  /** Splitting the join of non-empty, separator-free fields gives the fields back. */
  lemma JavaSplitOfJoin(fs: seq<string>, sep: char)
    requires |fs| >= 1
    requires forall i :: 0 <= i < |fs| ==> fs[i] != [] && sep !in fs[i]
    ensures JavaSplit(Join(fs, sep), sep) == fs
  {
    var s := Join(fs, sep);
    if sep in s {
      FieldsOfJoin(fs, sep);
      DropPadded(fs, 0);
      assert fs + Empties(0) == fs;
    }
  }

  /** The join is at least as long as its first field. */
  lemma JoinCoversFirst(fs: seq<string>, sep: char)
    requires |fs| >= 1
    ensures |Join(fs, sep)| >= |fs[0]|
  {
  }
}
