/** The riddle and hint catalogs and how `loadRiddles` / `loadHints` build them
    from the lines of their data files. */
module Catalog {
  import opened Results
  import opened Split
  import opened JavaTrim

  /** The state of a game object: answer -> riddle text, answer -> hint list, and
      the iteration order of the riddle map's keys (a `HashMap` gives no order, so
      the model takes it as a parameter). */
  datatype RiddleCatalog = RiddleCatalog(
    riddles: map<string, string>,
    hints: map<string, seq<string>>,
    order: seq<string>)

  predicate Distinct<T(==)>(s: seq<T>)
  {
    forall i, j :: 0 <= i < j < |s| ==> s[i] != s[j]
  }

  /** `order` lists every element of `keys` exactly once. */
  predicate Enumerates(order: seq<string>, keys: set<string>)
  {
    && Distinct(order)
    && (forall k :: k in order ==> k in keys)
    && (forall k :: k in keys ==> k in order)
  }

  predicate Valid(cat: RiddleCatalog)
  {
    Enumerates(cat.order, cat.riddles.Keys)
  }

  /** An enumeration is exactly as long as the set it enumerates. */
  lemma {:induction false} EnumerationSize(order: seq<string>, keys: set<string>)
    requires Enumerates(order, keys)
    ensures |keys| == |order|
  {
    if order == [] {
      assert keys == {};
    } else {
      var rest := order[1..];
      var ks := keys - {order[0]};
      forall k ensures k in rest <==> k in ks {
        if k in rest {
          var j :| 0 <= j < |rest| && rest[j] == k;
          assert order[j + 1] == k;
        }
        if k in ks {
          var j :| 0 <= j < |order| && order[j] == k;
          assert j != 0;
          assert rest[j - 1] == k;
        }
      }
      EnumerationSize(rest, ks);
    }
  }

  /* ---------------------------------------------------------------------------
     One line of a data file
     ------------------------------------------------------------------------- */

  /** `line.split(":")` kept only when it has exactly two parts: the raw (untrimmed)
      key and the value. */
  function SplitRecord(line: string): Option<(string, string)>
  {
    var parts := JavaSplit(line, ':');
    if |parts| == 2 then Some((parts[0], parts[1])) else None
  }

  /** The shape of an accepted line: a colon-free key, one colon, a non-empty
      colon-free value, and nothing after it but (possibly zero) colons. */
  predicate Shaped(line: string, raw: string, value: string, n: nat)
  {
    && line == raw + [':'] + value + Repeat(':', n)
    && ':' !in raw
    && ':' !in value
    && value != []
  }

  /** A well-shaped line is accepted, with its key and value. */
  lemma SplitRecordAccepts(raw: string, value: string, n: nat)
    requires Shaped(raw + [':'] + value + Repeat(':', n), raw, value, n)
    ensures SplitRecord(raw + [':'] + value + Repeat(':', n)) == Some((raw, value))
  {
    var line := raw + [':'] + value + Repeat(':', n);
    var fs := [raw, value] + Empties(n);
    assert fs[1..] == [value] + Empties(n);
    JoinEmpties(value, n, ':');
    assert Join(fs, ':') == line;
    assert forall i :: 0 <= i < |fs| ==> ':' !in fs[i];
    FieldsOfJoin(fs, ':');
    assert line[|raw|] == ':';
    DropPadded([raw, value], n);
  }

  /** An accepted line has the shape `Shaped` describes. */
  lemma SplitRecordShape(line: string)
    requires SplitRecord(line).Some?
    ensures exists n: nat :: Shaped(line, SplitRecord(line).value.0, SplitRecord(line).value.1, n)
  {
    var parts := JavaSplit(line, ':');
    var fs := Fields(line, ':');
    assert ':' in line;
    var m := |fs| - 2;
    assert fs == parts + Empties(m);
    assert fs[1..] == [parts[1]] + Empties(m);
    JoinFields(line, ':');
    JoinEmpties(parts[1], m, ':');
    assert line == parts[0] + [':'] + parts[1] + Repeat(':', m);
    assert Shaped(line, parts[0], parts[1], m);
  }

  /** A line is accepted with key `raw` and value `value` exactly when it has the
      shape `raw:value` followed by any number of colons (`split` drops the
      trailing empty fields those colons produce). */
  lemma SplitRecordIff(line: string, raw: string, value: string)
    ensures SplitRecord(line) == Some((raw, value)) <==> exists n: nat :: Shaped(line, raw, value, n)
  {
    if SplitRecord(line) == Some((raw, value)) {
      SplitRecordShape(line);
    }
    if exists n: nat :: Shaped(line, raw, value, n) {
      var n: nat :| Shaped(line, raw, value, n);
      SplitRecordAccepts(raw, value, n);
    }
  }

  /** A riddle line: the trimmed key and the untrimmed riddle text. */
  function ParseRiddle(line: string): Option<(string, string)>
  {
    match SplitRecord(line)
    case None => None
    case Some((raw, value)) => Some((Trim(raw), value))
  }

  /** A hint line: the trimmed key and the value split again on commas. */
  function ParseHint(line: string): Option<(string, seq<string>)>
  {
    match SplitRecord(line)
    case None => None
    case Some((raw, value)) => Some((Trim(raw), JavaSplit(value, ',')))
  }

  /* ---------------------------------------------------------------------------
     Building a map from all lines
     ------------------------------------------------------------------------- */

  /** `line` is accepted by `parse` and has key `k`. */
  predicate Defines<V>(parse: string -> Option<(string, V)>, line: string, k: string)
  {
    parse(line).Some? && parse(line).value.0 == k
  }

  /** Index of the last line that defines `k`, if any. */
  function LastDefinition<V>(lines: seq<string>, parse: string -> Option<(string, V)>, k: string): (r: Option<nat>)
    ensures r.Some? ==> r.value < |lines| && Defines(parse, lines[r.value], k)
    ensures r.Some? ==> forall j :: r.value < j < |lines| ==> !Defines(parse, lines[j], k)
    ensures r.None? ==> forall j :: 0 <= j < |lines| ==> !Defines(parse, lines[j], k)
  {
    if lines == [] then None
    else if Defines(parse, lines[|lines| - 1], k) then Some(|lines| - 1)
    else LastDefinition(lines[..|lines| - 1], parse, k)
  }

  /** The reading loop: every accepted line is `put` into the map, in file order. */
  function Load<V>(lines: seq<string>, parse: string -> Option<(string, V)>, m: map<string, V>): map<string, V>
  {
    if lines == [] then m
    else
      var prev := Load(lines[..|lines| - 1], parse, m);
      match parse(lines[|lines| - 1])
      case None => prev
      case Some((k, v)) => prev[k := v]
  }

  /** The loaded map holds a key exactly when some line defines it or it was there
      before; its value comes from the LAST line defining it (later lines
      overwrite), and keys no line mentions keep their old value. */
  lemma {:induction false} LoadContents<V>(lines: seq<string>, parse: string -> Option<(string, V)>, m: map<string, V>, k: string)
    ensures k in Load(lines, parse, m) <==> LastDefinition(lines, parse, k).Some? || k in m
    ensures LastDefinition(lines, parse, k).Some? ==>
      Load(lines, parse, m)[k] == parse(lines[LastDefinition(lines, parse, k).value]).value.1
    ensures LastDefinition(lines, parse, k).None? && k in m ==> Load(lines, parse, m)[k] == m[k]
  {
    if lines != [] {
      var init := lines[..|lines| - 1];
      LoadContents(init, parse, m, k);
      if !Defines(parse, lines[|lines| - 1], k) {
        assert LastDefinition(lines, parse, k) == LastDefinition(init, parse, k);
      }
    }
  }

  function LoadRiddles(lines: seq<string>): map<string, string>
  {
    Load(lines, ParseRiddle, map[])
  }

  function LoadHints(lines: seq<string>): map<string, seq<string>>
  {
    Load(lines, ParseHint, map[])
  }

  /** A riddle-map entry comes from the last line defining its key; that line is
      `raw:text` (plus trailing colons) with `raw` trimming to the key, and the
      stored text is exactly the untrimmed part after the colon. */
  lemma RiddleEntry(lines: seq<string>, k: string)
    ensures k in LoadRiddles(lines) <==> exists i :: 0 <= i < |lines| && Defines(ParseRiddle, lines[i], k)
    ensures k in LoadRiddles(lines) ==>
      var i := LastDefinition(lines, ParseRiddle, k).value;
      exists raw, n: nat :: Shaped(lines[i], raw, LoadRiddles(lines)[k], n) && Trim(raw) == k
  {
    LoadContents(lines, ParseRiddle, map[], k);
    if k in LoadRiddles(lines) {
      var i := LastDefinition(lines, ParseRiddle, k).value;
      var raw := SplitRecord(lines[i]).value.0;
      SplitRecordShape(lines[i]);
      assert Trim(raw) == k;
    }
  }

  /** A hint-map entry comes from the last line defining its key; its hints are the
      comma-separated pieces of that line's value, however many there are, and none
      contains a comma or a colon. */
  lemma HintEntry(lines: seq<string>, k: string)
    ensures k in LoadHints(lines) <==> exists i :: 0 <= i < |lines| && Defines(ParseHint, lines[i], k)
    ensures k in LoadHints(lines) ==>
      var i := LastDefinition(lines, ParseHint, k).value;
      exists raw, value, n: nat :: Shaped(lines[i], raw, value, n) && Trim(raw) == k
        && LoadHints(lines)[k] == JavaSplit(value, ',')
    ensures k in LoadHints(lines) ==>
      forall j :: 0 <= j < |LoadHints(lines)[k]| ==> ',' !in LoadHints(lines)[k][j] && ':' !in LoadHints(lines)[k][j]
  {
    LoadContents(lines, ParseHint, map[], k);
    if k in LoadHints(lines) {
      var i := LastDefinition(lines, ParseHint, k).value;
      var raw := SplitRecord(lines[i]).value.0;
      var value := SplitRecord(lines[i]).value.1;
      SplitRecordShape(lines[i]);
      var n: nat :| Shaped(lines[i], raw, value, n);
      var hs := JavaSplit(value, ',');
      assert LoadHints(lines)[k] == hs;
      forall j | 0 <= j < |hs| ensures ':' !in hs[j] {
        JavaSplitRoundTrip(value, ',');
        var m :| |hs| + m >= 1 && Join(hs + Empties(m), ',') == value;
        JoinedFieldIn(hs + Empties(m), ',', j);
      }
    }
  }

  /** Every character of a field occurs in the join. */
  lemma {:induction false} JoinedFieldIn(fs: seq<string>, sep: char, j: nat)
    requires |fs| >= 1 && j < |fs|
    ensures forall c :: c in fs[j] ==> c in Join(fs, sep)
  {
    if j > 0 {
      JoinedFieldIn(fs[1..], sep, j - 1);
    }
  }

  /** A hint line whose hints are non-empty and free of colons and commas parses to
      exactly those hints. */
  lemma HintLineParses(raw: string, hs: seq<string>)
    requires ':' !in raw
    requires |hs| >= 1
    requires forall j :: 0 <= j < |hs| ==> hs[j] != [] && ':' !in hs[j] && ',' !in hs[j]
    ensures ParseHint(raw + [':'] + Join(hs, ',')) == Some((Trim(raw), hs))
  {
    var value := Join(hs, ',');
    JoinCoversFirst(hs, ',');
    NoCharInJoin(hs, ',', ':');
    assert raw + [':'] + value == raw + [':'] + value + Repeat(':', 0);
    SplitRecordAccepts(raw, value, 0);
    JavaSplitOfJoin(hs, ',');
  }

  /** No cap on the number of hints: a line `raw:h1,...,hn` whose hints are
      non-empty and free of colons and commas gives exactly the list `h1 ... hn`. */
  lemma HintLineRoundTrip(raw: string, hs: seq<string>)
    requires ':' !in raw
    requires |hs| >= 1
    requires forall j :: 0 <= j < |hs| ==> hs[j] != [] && ':' !in hs[j] && ',' !in hs[j]
    ensures LoadHints([raw + [':'] + Join(hs, ',')]) == map[Trim(raw) := hs]
  {
    var line := raw + [':'] + Join(hs, ',');
    HintLineParses(raw, hs);
    LoadSingle(line, ParseHint, map[]);
  }

  /** A character that is neither the separator nor in any field is not in the join. */
  lemma {:induction false} NoCharInJoin(fs: seq<string>, sep: char, c: char)
    requires |fs| >= 1 && c != sep
    requires forall j :: 0 <= j < |fs| ==> c !in fs[j]
    ensures c !in Join(fs, sep)
  {
    if |fs| > 1 {
      NoCharInJoin(fs[1..], sep, c);
    }
  }

  /** Loading a single line puts just that line's entry. */
  lemma LoadSingle<V>(line: string, parse: string -> Option<(string, V)>, m: map<string, V>)
    ensures Load([line], parse, m) == if parse(line).Some? then m[parse(line).value.0 := parse(line).value.1] else m
  {
    assert [line][..0] == [];
  }
}
