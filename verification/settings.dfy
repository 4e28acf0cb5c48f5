/** The parsing and position-assignment part of `settings.py`. Reading the file
    and the lazily loaded singleton are replaced by explicit arguments: the
    settings text, the layout, and the configured strings. */
module Settings {
  import opened Wrappers
  import opened Text
  import opened Layouts

  /** `SETTINGS_SEPARATOR`. */
  const Separator: string := "->"

  predicate Distinct(s: seq<int>) {
    forall i, j :: 0 <= i < j < |s| ==> s[i] != s[j]
  }

  /** Parses every item in order; the first item `parse` rejects decides the error. */
  function ParseAll<V>(items: seq<string>, parse: string -> Result<V>): (r: Result<seq<V>>)
    ensures r.Ok? <==> forall i :: 0 <= i < |items| ==> parse(items[i]).Ok?
    ensures r.Ok? ==> |r.value| == |items| && forall i :: 0 <= i < |items| ==> r.value[i] == parse(items[i]).value
    ensures r.Err? ==> exists i :: 0 <= i < |items| && (forall j :: 0 <= j < i ==> parse(items[j]).Ok?) &&
                                   parse(items[i]) == Err(r.error)
    decreases |items|
  {
    if |items| == 0 then
      Ok([])
    else
      var first := parse(items[0]);
      if first.Err? then
        Err(first.error)
      else
        var rest := ParseAll(items[1..], parse);
        assert forall i :: 1 <= i < |items| ==> items[i] == items[1..][i - 1];
        if rest.Err? then Err(rest.error) else Ok([first.value] + rest.value)
  }

  /** Storing the pairs one after the other into a fresh dictionary: a later
      pair with the same key overwrites an earlier one. */
  function LastWins<V>(entries: seq<(string, V)>): (r: map<string, V>)
    ensures forall k :: k in r <==> exists i :: 0 <= i < |entries| && entries[i].0 == k
    ensures forall k :: k in r ==> LastWith(entries, k, r[k])
    decreases |entries|
  {
    if |entries| == 0 then
      map[]
    else
      var n := |entries| - 1;
      var earlier := LastWins(entries[..n]);
      var r := earlier[entries[n].0 := entries[n].1];
      LastWinsStep(entries, earlier, r);
      r
  }

  /** `(k, v)` is the last pair of `entries` with key `k`. */
  ghost predicate LastWith<V>(entries: seq<(string, V)>, k: string, v: V) {
    exists i :: 0 <= i < |entries| && entries[i] == (k, v) && forall j :: i < j < |entries| ==> entries[j].0 != k
  }

  lemma LastWinsStep<V>(entries: seq<(string, V)>, earlier: map<string, V>, r: map<string, V>)
    requires |entries| > 0
    requires var n := |entries| - 1;
             (forall k :: k in earlier <==> exists i :: 0 <= i < n && entries[..n][i].0 == k) &&
             (forall k :: k in earlier ==> LastWith(entries[..n], k, earlier[k])) &&
             r == earlier[entries[n].0 := entries[n].1]
    ensures forall k :: k in r <==> exists i :: 0 <= i < |entries| && entries[i].0 == k
    ensures forall k :: k in r ==> LastWith(entries, k, r[k])
  {
    var n := |entries| - 1;
    assert forall i :: 0 <= i < n ==> entries[..n][i] == entries[i];
    forall k | k in r
      ensures LastWith(entries, k, r[k])
    {
      if k == entries[n].0 {
        assert entries[n] == (k, r[k]);
      } else {
        LastWithPrefix(entries, k, earlier[k]);
      }
    }
  }

  lemma LastWithPrefix<V>(entries: seq<(string, V)>, k: string, v: V)
    requires |entries| > 0 && entries[|entries| - 1].0 != k
    requires LastWith(entries[..|entries| - 1], k, v)
    ensures LastWith(entries, k, v)
  {
    var n := |entries| - 1;
    var i :| 0 <= i < n && entries[..n][i] == (k, v) && forall j :: i < j < n ==> entries[..n][j].0 != k;
    assert entries[i] == (k, v);
    assert forall j :: i < j < n ==> entries[j] == entries[..n][j];
  }

  /** One line of `_loadSettings`: the stripped line must split on `->` into exactly
      two pieces, which are stripped into the key and the value. */
  function SplitSettingLine(line: string): (r: Result<(string, string)>)
    ensures r.Ok? <==> |Split(Strip(line), Separator)| == 2
    ensures r.Err? ==> r.error == ValueError
    ensures r.Ok? ==> Trimmed(r.value.0) && Trimmed(r.value.1)
  {
    var parts := Split(Strip(line), Separator);
    if |parts| != 2 then Err(ValueError) else Ok((Strip(parts[0]), Strip(parts[1])))
  }

  /** A line written as `key -> value`, with any blanks around the separator and
      any trailing blanks or line break, reads back as the pair. */
  lemma SettingLineRoundTrip(key: string, gap1: string, gap2: string, value: string, tail: string)
    requires |key| > 0 && |value| > 0 && Trimmed(key) && Trimmed(value)
    requires '-' !in key && '-' !in value
    requires AllSpace(gap1) && AllSpace(gap2) && AllSpace(tail)
    ensures SplitSettingLine(key + gap1 + Separator + gap2 + value + tail) == Ok((key, value))
  {
    var line := key + gap1 + Separator + gap2 + value + tail;
    LineHalves(key, gap1, gap2, value, tail);
    SplitLineOf(line, key + gap1, gap2 + value);
    StripGaps(key, gap1, gap2, value);
  }

  lemma StripGaps(key: string, gap1: string, gap2: string, value: string)
    requires Trimmed(key) && Trimmed(value) && AllSpace(gap1) && AllSpace(gap2)
    ensures Strip(key + gap1) == key && Strip(gap2 + value) == value
  {
    StripPadding([], key, gap1);
    assert [] + key + gap1 == key + gap1;
    StripPadding(gap2, value, []);
    assert gap2 + value + [] == gap2 + value;
  }

  lemma LineHalves(key: string, gap1: string, gap2: string, value: string, tail: string)
    requires |key| > 0 && |value| > 0 && Trimmed(key) && Trimmed(value)
    requires '-' !in key && '-' !in value
    requires AllSpace(gap1) && AllSpace(gap2) && AllSpace(tail)
    ensures Split(Strip(key + gap1 + Separator + gap2 + value + tail), Separator) == [key + gap1, gap2 + value]
  {
    var left := key + gap1;
    var right := gap2 + value;
    var core := left + Separator + right;
    assert key + gap1 + Separator + gap2 + value + tail == core + tail;
    EndsTrimmed(left, Separator + right);
    assert left + (Separator + right) == core;
    StripTail(core, tail);
    SpaceFree(gap1, '-');
    SpaceFree(gap2, '-');
    SplitHalves(left, right);
  }

  lemma EndsTrimmed(a: string, b: string)
    requires |a| > 0 && |b| > 0 && !IsSpace(a[0]) && !IsSpace(b[|b| - 1])
    ensures Trimmed(a + b)
  {
  }

  lemma StripTail(core: string, tail: string)
    requires Trimmed(core) && AllSpace(tail)
    ensures Strip(core + tail) == core
  {
    StripPadding([], core, tail);
    assert [] + core + tail == core + tail;
  }

  lemma SpaceFree(s: string, c: char)
    requires AllSpace(s) && !IsSpace(c)
    ensures c !in s
  {
  }

  lemma SplitHalves(left: string, right: string)
    requires '-' !in left && '-' !in right
    ensures Split(left + Separator + right, Separator) == [left, right]
  {
    SplitAt(left, Separator, right);
    SplitFree(right, Separator);
  }

  lemma SplitLineOf(line: string, left: string, right: string)
    requires Split(Strip(line), Separator) == [left, right]
    ensures SplitSettingLine(line) == Ok((Strip(left), Strip(right)))
  {
  }

  /** `_loadSettings` on the lines of the file: every line must split, and a key
      given twice keeps its last value. */
  function LoadSettings(lines: seq<string>): (r: Result<map<string, string>>)
    ensures r.Ok? <==> forall i :: 0 <= i < |lines| ==> SplitSettingLine(lines[i]).Ok?
    ensures r.Err? ==> r.error == ValueError
    ensures r.Ok? ==> r.value == LastWins(Values(lines, SplitSettingLine))
  {
    var parsed := ParseAll(lines, SplitSettingLine);
    if parsed.Err? then
      Err(ValueError)
    else
      ValuesOf(lines, SplitSettingLine, parsed.value);
      Ok(LastWins(parsed.value))
  }

  /** The values of items that all parse, in order. */
  function Values<V>(items: seq<string>, parse: string -> Result<V>): (vs: seq<V>)
    requires forall i :: 0 <= i < |items| ==> parse(items[i]).Ok?
    ensures |vs| == |items|
    ensures forall i :: 0 <= i < |items| ==> vs[i] == parse(items[i]).value
    decreases |items|
  {
    if |items| == 0 then
      []
    else
      var rest := Values(items[1..], parse);
      assert forall i :: 1 <= i < |items| ==> items[i] == items[1..][i - 1];
      [parse(items[0]).value] + rest
  }

  lemma ValuesOf<V>(items: seq<string>, parse: string -> Result<V>, vs: seq<V>)
    requires |vs| == |items|
    requires forall i :: 0 <= i < |items| ==> parse(items[i]) == Ok(vs[i])
    ensures vs == Values(items, parse)
  {
  }

  /** One `k=v` segment of `_parseTicketDict`: exactly one `=`, the key stripped,
      the value read with `int()`. */
  function ParsePair(pair: string): (r: Result<(string, int)>)
    ensures r.Ok? <==> |Split(pair, "=")| == 2 && ParseInt(Split(pair, "=")[1]).Ok?
    ensures r.Err? ==> r.error == ValueError
    ensures r.Ok? ==> Trimmed(r.value.0) && '=' !in r.value.0
  {
    var parts := Split(pair, "=");
    if |parts| != 2 then
      Err(ValueError)
    else
      var v := ParseInt(parts[1]);
      if v.Err? then Err(ValueError) else Ok((Strip(parts[0]), v.value))
  }

  /** `_parseTicketDict`: the stripped text is cut at every `;` and each segment
      must be a `k=v` pair; later keys overwrite earlier ones. */
  function ParseTicketDict(text: string): (r: Result<map<string, int>>)
    ensures var segments := Split(Strip(text), ";");
            r.Ok? <==> forall i :: 0 <= i < |segments| ==> ParsePair(segments[i]).Ok?
    ensures var segments := Split(Strip(text), ";");
            r.Ok? ==> (forall i :: 0 <= i < |segments| ==> ParsePair(segments[i]).Ok?) &&
                      r.value == LastWins(Values(segments, ParsePair))
    ensures r.Err? ==> r.error == ValueError
    ensures r.Ok? ==> forall t :: t in r.value ==> Trimmed(t) && ';' !in t && '=' !in t
  {
    var segments := Split(Strip(text), ";");
    CutFree(Strip(text));
    var r := TicketSegments(segments);
    assert segments == Split(Strip(text), ";");
    assert var segments := Split(Strip(text), ";");
           r.Ok? <==> forall i :: 0 <= i < |segments| ==> ParsePair(segments[i]).Ok?;
    assert var segments := Split(Strip(text), ";");
           r.Ok? ==> r.value == LastWins(Values(segments, ParsePair));
    r
  }

  lemma CutFree(s: string)
    ensures forall i :: 0 <= i < |Split(s, ";")| ==> ';' !in Split(s, ";")[i]
  {
    var parts := Split(s, ";");
    assert |";"| == 1 && ";"[0] == ';';
  }

  /** `_parseTicketDict` once the text is cut: every segment must be a pair. */
  function TicketSegments(segments: seq<string>): (r: Result<map<string, int>>)
    requires forall i :: 0 <= i < |segments| ==> ';' !in segments[i]
    ensures r.Ok? <==> forall i :: 0 <= i < |segments| ==> ParsePair(segments[i]).Ok?
    ensures r.Ok? ==> (forall i :: 0 <= i < |segments| ==> ParsePair(segments[i]).Ok?) &&
                      r.value == LastWins(Values(segments, ParsePair))
    ensures r.Err? ==> r.error == ValueError
    ensures r.Ok? ==> forall t :: t in r.value ==> Trimmed(t) && ';' !in t && '=' !in t
  {
    var parsed := ParseAll(segments, ParsePair);
    ParsePairs(segments);
    if parsed.Err? then
      Err(ValueError)
    else
      TicketKeys(segments, parsed.value);
      ValuesOf(segments, ParsePair, parsed.value);
      Ok(LastWins(parsed.value))
  }

  lemma ParsePairs(segments: seq<string>)
    ensures var parsed := ParseAll(segments, ParsePair);
            (parsed.Ok? <==> forall i :: 0 <= i < |segments| ==> ParsePair(segments[i]).Ok?) &&
            (parsed.Ok? ==> |parsed.value| == |segments| &&
                            forall i :: 0 <= i < |segments| ==> ParsePair(segments[i]) == Ok(parsed.value[i]))
  {
  }

  /** Keys read from `;`-separated segments hold neither `;` nor `=` and are stripped. */
  lemma TicketKeys(segments: seq<string>, entries: seq<(string, int)>)
    requires forall i :: 0 <= i < |segments| ==> ';' !in segments[i]
    requires |entries| == |segments|
    requires forall i :: 0 <= i < |segments| ==> ParsePair(segments[i]) == Ok(entries[i])
    ensures forall t :: t in LastWins(entries) ==> Trimmed(t) && ';' !in t && '=' !in t
  {
    forall t | t in LastWins(entries)
      ensures Trimmed(t) && ';' !in t && '=' !in t
    {
      var i :| 0 <= i < |entries| && entries[i].0 == t;
      PairKeyFree(segments[i], ';');
    }
  }

  /** The key of a pair holds no character the pair does not hold. */
  lemma PairKeyFree(pair: string, c: char)
    requires ParsePair(pair).Ok? && c !in pair
    ensures c !in ParsePair(pair).value.0
  {
    var parts := Split(pair, "=");
    JoinPieceFree(parts, "=", c, 0);
    StripKeeps(parts[0], c);
  }

  /** A character missing from a join is missing from each joined part. */
  lemma {:induction false} JoinPieceFree(parts: seq<string>, sep: string, c: char, k: nat)
    requires k < |parts| && c !in Join(parts, sep)
    ensures c !in parts[k]
    decreases |parts|
  {
    if |parts| > 1 {
      var rest := Join(parts[1..], sep);
      assert Join(parts, sep) == parts[0] + sep + rest;
      if k > 0 {
        assert forall x :: x in rest ==> x in Join(parts, sep);
        JoinPieceFree(parts[1..], sep, c, k - 1);
      } else {
        assert forall x :: x in parts[0] ==> x in Join(parts, sep);
      }
    }
  }

  /** Stripping never adds a character. */
  lemma StripKeeps(s: string, c: char)
    requires c !in s
    ensures c !in Strip(s)
  {
    var t := TrimStart(s);
    assert forall x :: x in t ==> x in s;
    assert forall x :: x in TrimEnd(t) ==> x in t;
  }

  /** The text of a ticket setting: `key=count` segments joined by `;`. */
  function TicketText(entries: seq<(string, int)>): string {
    Join(Segments(entries), ";")
  }

  /** Round trip: a written ticket setting parses back to the dictionary built
      from its pairs, later keys winning. */
  lemma TicketTextRoundTrip(entries: seq<(string, int)>)
    requires |entries| >= 1
    requires forall i :: 0 <= i < |entries| ==> Trimmed(entries[i].0) && ';' !in entries[i].0 && '=' !in entries[i].0
    ensures ParseTicketDict(TicketText(entries)) == Ok(LastWins(entries))
  {
    var segments := Segments(entries);
    var text := TicketText(entries);
    forall i | 0 <= i < |segments|
      ensures ';' !in segments[i] && |segments[i]| > 0 && ParsePair(segments[i]) == Ok(entries[i])
    {
      SegmentReads(entries[i].0, entries[i].1);
    }
    TicketTextTrimmed(entries);
    StripTrimmed(text);
    SplitJoin(segments, ';');
    assert Split(Strip(text), ";") == segments;
    ParseAllOk(segments, entries);
  }

  function Segments(entries: seq<(string, int)>): (r: seq<string>)
    ensures |r| == |entries|
  {
    seq(|entries|, i requires 0 <= i < |entries| => entries[i].0 + "=" + IntToString(entries[i].1))
  }

  lemma ParseAllOk(segments: seq<string>, entries: seq<(string, int)>)
    requires |entries| == |segments|
    requires forall i :: 0 <= i < |segments| ==> ParsePair(segments[i]) == Ok(entries[i])
    ensures ParseAll(segments, ParsePair) == Ok(entries)
  {
    var parsed := ParseAll(segments, ParsePair);
    assert forall i :: 0 <= i < |segments| ==> ParsePair(segments[i]).Ok?;
    assert parsed.Ok?;
    forall i | 0 <= i < |segments| ensures parsed.value[i] == entries[i] {
      assert parsed.value[i] == ParsePair(segments[i]).value;
    }
    assert parsed.value == entries;
  }

  lemma TicketTextTrimmed(entries: seq<(string, int)>)
    requires |entries| >= 1
    requires forall i :: 0 <= i < |entries| ==> Trimmed(entries[i].0)
    ensures Trimmed(TicketText(entries))
  {
    var segments := Segments(entries);
    assert forall i :: 0 <= i < |segments| ==> |segments[i]| > 0;
    JoinEnds(segments, ";");
    var n := |entries| - 1;
    var number := IntToString(entries[n].1);
    assert segments[n] == entries[n].0 + "=" + number;
    assert segments[n][|segments[n]| - 1] == number[|number| - 1];
    assert segments[0][0] == (if |entries[0].0| > 0 then entries[0].0[0] else '=');
  }

  /** One written `key=count` segment. */
  lemma SegmentReads(key: string, count: int)
    requires Trimmed(key) && ';' !in key && '=' !in key
    ensures var segment := key + "=" + IntToString(count);
            ';' !in segment && |segment| > 0 && ParsePair(segment) == Ok((key, count))
  {
    var number := IntToString(count);
    NumberText(count);
    SegmentSplit(key, number);
    ParseIntToString(count);
    StripTrimmed(key);
    ParsePairOf(key + "=" + number, key, number);
  }

  /** A written integer holds neither separator of the ticket setting. */
  lemma NumberText(count: int)
    ensures '=' !in IntToString(count) && ';' !in IntToString(count)
  {
    var number := IntToString(count);
    forall i | 0 <= i < |number| ensures number[i] != '=' && number[i] != ';' {
      assert IsDigit(number[i]) || number[i] == '-';
    }
  }

  lemma SegmentSplit(key: string, number: string)
    requires '=' !in key && '=' !in number
    ensures Split(key + "=" + number, "=") == [key, number]
  {
    SplitAt(key, "=", number);
    SplitFree(number, "=");
  }

  lemma ParsePairOf(pair: string, key: string, number: string)
    requires Split(pair, "=") == [key, number] && ParseInt(number).Ok?
    ensures ParsePair(pair) == Ok((Strip(key), ParseInt(number).value))
  {
  }

  /** `getNotHiddenMovesNumbers`: the comma-separated integers, in their order. */
  function NotHiddenMoves(text: string): (r: Result<seq<int>>)
    ensures r.Ok? <==> forall i :: 0 <= i < |Split(text, ",")| ==> ParseInt(Split(text, ",")[i]).Ok?
    ensures r.Ok? ==> |r.value| == |Split(text, ",")|
    ensures r.Ok? ==> forall i :: 0 <= i < |r.value| ==> r.value[i] == ParseInt(Split(text, ",")[i]).value
    ensures r.Err? ==> r.error == ValueError
  {
    var parts := Split(text, ",");
    var r := ParseInts(parts);
    assert r.Ok? ==> forall i :: 0 <= i < |parts| ==> ParseInt(parts[i]).Ok?;
    assert (forall i :: 0 <= i < |parts| ==> ParseInt(parts[i]).Ok?) ==> r.Ok?;
    assert parts == Split(text, ",");
    assert (forall i :: 0 <= i < |Split(text, ",")| ==> ParseInt(Split(text, ",")[i]).Ok?) ==> r.Ok?;
    assert r.Ok? ==> forall i :: 0 <= i < |r.value| ==> r.value[i] == ParseInt(Split(text, ",")[i]).value;
    r
  }

  /** Round trip: the list written with commas reads back unchanged. */
  lemma NotHiddenMovesRoundTrip(moves: seq<int>)
    requires |moves| >= 1
    ensures NotHiddenMoves(JoinInts(moves, ",")) == Ok(moves)
  {
    ParseJoinedInts(moves, ',');
  }

  /** The station nodes of a layout (the keys of `getNodesStations()`), each once,
      in the order the edges first mention them. */
  function StationNodes(edges: seq<Edge>): (r: seq<int>)
    ensures Distinct(r)
    ensures forall n :: n in r <==> n in EndpointsOf(edges)
    decreases |edges|
  {
    if |edges| == 0 then
      []
    else
      var k := |edges| - 1;
      EndpointsAppend(edges);
      AddNode(AddNode(StationNodes(edges[..k]), edges[k].start), edges[k].end)
  }

  function AddNode(nodes: seq<int>, n: int): (r: seq<int>)
    ensures Distinct(nodes) ==> Distinct(r)
    ensures forall m :: m in r <==> m in nodes || m == n
  {
    if n in nodes then nodes else nodes + [n]
  }

  lemma EndpointsAppend(edges: seq<Edge>)
    requires |edges| > 0
    ensures var k := |edges| - 1;
            EndpointsOf(edges) == EndpointsOf(edges[..k]) + {edges[k].start, edges[k].end}
  {
    var k := |edges| - 1;
    assert forall i :: 0 <= i < k ==> edges[..k][i] == edges[i];
  }

  /** `getLegalPositions`: the station nodes on which no cop starts, in order. */
  function LegalPositions(nodes: seq<int>, cops: seq<int>): (r: seq<int>)
    ensures forall p :: p in r <==> p in nodes && p !in cops
    ensures Distinct(nodes) ==> Distinct(r)
    ensures |r| <= |nodes|
    decreases |nodes|
  {
    if |nodes| == 0 then
      []
    else
      var rest := LegalPositions(nodes[1..], cops);
      assert forall p :: p in nodes <==> p == nodes[0] || p in nodes[1..];
      if nodes[0] in cops then rest else [nodes[0]] + rest
  }

  /** On a consistent layout the legal positions are exactly the nodes with a
      station and no cop, each listed once. */
  lemma LegalPositionsOfLayout(l: Layout, cops: seq<int>)
    requires Consistent(l)
    ensures var legal := LegalPositions(StationNodes(l.edges), cops);
            Distinct(legal) && forall p :: p in legal <==> p in l.stations && p !in cops
  {
  }

  /** The configured start of Mr X followed by the comma-separated cop starts. */
  function Slots(mrx: string, cops: string): (r: seq<string>)
    ensures |r| >= 2 ==> |r| - 1 == |Split(cops, ",")|
  {
    [mrx] + Split(cops, ",")
  }

  /** The first loop of `_assignPositions` on one slot: "random" (after stripping)
      is left for later; anything else is read with `int()` and must be a station. */
  function ParseSlot(slot: string, stations: set<int>): (r: Result<Option<int>>)
    ensures r == Ok(None) <==> Strip(slot) == "random"
    ensures r.Ok? && r.value.Some? ==> ParseInt(slot) == Ok(r.value.value) && r.value.value in stations
    ensures Strip(slot) != "random" && ParseInt(slot).Err? ==> r == Err(ValueError)
    ensures Strip(slot) != "random" && ParseInt(slot).Ok? && ParseInt(slot).value !in stations ==> r == Err(AssertionError)
  {
    if Strip(slot) == "random" then
      Ok(None)
    else
      var n :- ParseInt(slot);
      if n !in stations then Err(AssertionError) else Ok(Some(n))
  }

  /** The first loop of `_assignPositions` over all slots: the first slot that
      fails decides the error. */
  function ParseSlots(slots: seq<string>, stations: set<int>): (r: Result<seq<Option<int>>>)
    ensures r.Ok? <==> forall i :: 0 <= i < |slots| ==> ParseSlot(slots[i], stations).Ok?
    ensures r.Ok? ==> |r.value| == |slots| && forall i :: 0 <= i < |slots| ==> r.value[i] == ParseSlot(slots[i], stations).value
    ensures r.Err? ==> exists i :: 0 <= i < |slots| && (forall j :: 0 <= j < i ==> ParseSlot(slots[j], stations).Ok?) &&
                                   ParseSlot(slots[i], stations) == Err(r.error)
  {
    ParseAll(slots, slot => ParseSlot(slot, stations))
  }

  /** No fixed position is configured twice (the duplicate assertion). */
  predicate FixedDistinct(parsed: seq<Option<int>>) {
    forall i, j :: 0 <= i < j < |parsed| && parsed[i].Some? && parsed[j].Some? ==> parsed[i].value != parsed[j].value
  }

  function NumRandom(parsed: seq<Option<int>>): (r: nat)
    ensures r <= |parsed|
    decreases |parsed|
  {
    if |parsed| == 0 then 0 else (if parsed[0].None? then 1 else 0) + NumRandom(parsed[1..])
  }

  /** `_occupied_positions` before the random slots are filled. */
  function FixedSet(parsed: seq<Option<int>>): (r: set<int>)
    ensures forall x :: x in r <==> exists i :: 0 <= i < |parsed| && parsed[i] == Some(x)
    ensures FixedDistinct(parsed) ==> |r| + NumRandom(parsed) == |parsed|
    decreases |parsed|
  {
    if |parsed| == 0 then
      {}
    else
      var rest := FixedSet(parsed[1..]);
      assert forall i :: 1 <= i < |parsed| ==> parsed[i] == parsed[1..][i - 1];
      assert FixedDistinct(parsed) ==> FixedDistinct(parsed[1..]) by {
        if FixedDistinct(parsed) {
          forall i, j | 0 <= i < j < |parsed[1..]| && parsed[1..][i].Some? && parsed[1..][j].Some?
            ensures parsed[1..][i].value != parsed[1..][j].value
          {
            assert parsed[1..][i] == parsed[i + 1] && parsed[1..][j] == parsed[j + 1];
          }
        }
      }
      if parsed[0].Some? then {parsed[0].value} + rest else rest
  }

  /** `getNumberOfCops`. */
  function NumberOfCops(positions: seq<int>): int {
    |positions| - 1
  }

  lemma NumRandomStep(parsed: seq<Option<int>>, i: nat)
    requires i < |parsed|
    ensures NumRandom(parsed[i..]) == (if parsed[i].None? then 1 else 0) + NumRandom(parsed[i + 1..])
  {
    assert parsed[i..][1..] == parsed[i + 1..];
  }

  /** The state of the fill loop before slot `i`: `positions` holds one distinct
      node per slot so far, fixed slots keep their node, no earlier node equals a
      later fixed one, and `occupied` grows by one for each random slot filled. */
  ghost predicate Filling(parsed: seq<Option<int>>, stations: set<int>, i: nat, positions: seq<int>, occupied: set<int>) {
    i <= |parsed| && |positions| == i &&
    (forall j :: 0 <= j < i ==> positions[j] in occupied) &&
    (forall j :: 0 <= j < i && parsed[j].Some? ==> positions[j] == parsed[j].value) &&
    Distinct(positions) &&
    (forall j, k :: 0 <= j < i <= k < |parsed| && parsed[k].Some? ==> positions[j] != parsed[k].value) &&
    FixedSet(parsed) <= occupied <= stations &&
    |occupied| + NumRandom(parsed[i..]) == |parsed|
  }

  lemma FillStart(parsed: seq<Option<int>>, stations: set<int>)
    requires forall i :: 0 <= i < |parsed| && parsed[i].Some? ==> parsed[i].value in stations
    requires FixedDistinct(parsed)
    ensures Filling(parsed, stations, 0, [], FixedSet(parsed))
  {
    assert parsed[0..] == parsed;
  }

  lemma FillFixed(parsed: seq<Option<int>>, stations: set<int>, i: nat, positions: seq<int>, occupied: set<int>)
    requires FixedDistinct(parsed) && Filling(parsed, stations, i, positions, occupied)
    requires i < |parsed| && parsed[i].Some?
    ensures Filling(parsed, stations, i + 1, positions + [parsed[i].value], occupied)
  {
    NumRandomStep(parsed, i);
    var next := positions + [parsed[i].value];
    assert parsed[i].value in FixedSet(parsed);
    assert forall j :: 0 <= j < i ==> next[j] == positions[j];
  }

  lemma FillRandom(parsed: seq<Option<int>>, stations: set<int>, i: nat, positions: seq<int>, occupied: set<int>, n: int)
    requires Filling(parsed, stations, i, positions, occupied)
    requires i < |parsed| && parsed[i].None? && n in stations && n !in occupied
    ensures Filling(parsed, stations, i + 1, positions + [n], occupied + {n})
  {
    NumRandomStep(parsed, i);
    var next := positions + [n];
    assert forall j :: 0 <= j < i ==> next[j] == positions[j];
    assert forall k :: i < k < |parsed| && parsed[k].Some? ==> parsed[k].value in occupied;
  }

  /** A random slot finding every station taken means there are more slots than stations. */
  lemma FillStuck(parsed: seq<Option<int>>, stations: set<int>, i: nat, positions: seq<int>, occupied: set<int>)
    requires Filling(parsed, stations, i, positions, occupied)
    requires i < |parsed| && parsed[i].None? && stations <= occupied
    ensures |parsed| > |stations|
  {
    NumRandomStep(parsed, i);
    assert occupied == stations;
  }

  lemma FreeStation(stations: set<int>, occupied: set<int>)
    requires !(stations <= occupied)
    ensures exists n :: n in stations && n !in occupied
  {
    if !exists n :: n in stations && n !in occupied {
      assert false;
    }
  }

  /** A repetition-free list drawn from a set is no longer than the set. */
  lemma {:induction false} DistinctWithin(s: seq<int>, b: set<int>)
    requires Distinct(s) && forall i :: 0 <= i < |s| ==> s[i] in b
    ensures |s| <= |b|
    decreases |s|
  {
    if |s| > 0 {
      var rest := s[1..];
      assert forall i :: 0 <= i < |rest| ==> rest[i] == s[i + 1] && rest[i] != s[0];
      DistinctWithin(rest, b - {s[0]});
    }
  }

  /** The second loop of `_assignPositions` with `_randomNode`: each "random" slot
      draws a station no one occupies yet. The draw is a free choice;
      `random.choice` on no stations raises IndexError, and when every station is
      taken the retry loop never ends. */
  method FillPositions(parsed: seq<Option<int>>, stations: set<int>) returns (r: Result<seq<int>>)
    requires FixedDistinct(parsed)
    requires forall i :: 0 <= i < |parsed| && parsed[i].Some? ==> parsed[i].value in stations
    ensures r.Ok? <==> |parsed| <= |stations|
    ensures r.Err? ==> r.error == if |stations| == 0 then IndexError else Diverges
    ensures r.Ok? ==> |r.value| == |parsed| &&
                      (forall i :: 0 <= i < |parsed| && parsed[i].Some? ==> r.value[i] == parsed[i].value)
    ensures r.Ok? ==> Distinct(r.value) && forall i :: 0 <= i < |r.value| ==> r.value[i] in stations
  {
    FillStart(parsed, stations);
    var occupied := FixedSet(parsed);
    var positions: seq<int> := [];
    for i := 0 to |parsed|
      invariant Filling(parsed, stations, i, positions, occupied)
    {
      if parsed[i].None? {
        if |stations| == 0 {
          FillStuck(parsed, stations, i, positions, occupied);
          return Err(IndexError);
        }
        if stations <= occupied {
          FillStuck(parsed, stations, i, positions, occupied);
          return Err(Diverges);
        }
        FreeStation(stations, occupied);
        var n :| n in stations && n !in occupied;
        FillRandom(parsed, stations, i, positions, occupied, n);
        occupied := occupied + {n};
        positions := positions + [n];
      } else {
        FillFixed(parsed, stations, i, positions, occupied);
        positions := positions + [parsed[i].value];
      }
    }
    DistinctWithin(positions, stations);
    return Ok(positions);
  }

  /** `_assignPositions` on the station nodes of the layout: every fixed slot is
      read and checked, fixed slots must differ, then the random slots are filled. */
  method AssignPositions(mrx: string, cops: string, l: Layout) returns (r: Result<seq<int>>)
    ensures var parsed := ParseSlots(Slots(mrx, cops), l.stations.Keys);
            parsed.Err? ==> r == Err(parsed.error)
    ensures var parsed := ParseSlots(Slots(mrx, cops), l.stations.Keys);
            parsed.Ok? && !FixedDistinct(parsed.value) ==> r == Err(AssertionError)
    ensures var parsed := ParseSlots(Slots(mrx, cops), l.stations.Keys);
            parsed.Ok? && FixedDistinct(parsed.value) ==>
              (r.Ok? <==> |Slots(mrx, cops)| <= |l.stations.Keys|) &&
              (r.Err? ==> r.error == if |l.stations.Keys| == 0 then IndexError else Diverges)
    ensures r.Ok? ==> ParseSlots(Slots(mrx, cops), l.stations.Keys).Ok?
    ensures r.Ok? ==> var parsed := ParseSlots(Slots(mrx, cops), l.stations.Keys).value;
            |r.value| == |parsed| &&
            (forall i :: 0 <= i < |parsed| && parsed[i].Some? ==> r.value[i] == parsed[i].value)
    ensures r.Ok? ==> Distinct(r.value) && forall i :: 0 <= i < |r.value| ==> r.value[i] in l.stations
    ensures r.Ok? ==> NumberOfCops(r.value) == |Split(cops, ",")|
  {
    var stations := l.stations.Keys;
    var slots := Slots(mrx, cops);
    var parsed :- ParseSlots(slots, stations);
    if !FixedDistinct(parsed) {
      return Err(AssertionError);
    }
    SlotsInStations(slots, parsed, stations);
    r := FillPositions(parsed, stations);
  }

  lemma SlotsInStations(slots: seq<string>, parsed: seq<Option<int>>, stations: set<int>)
    requires ParseSlots(slots, stations) == Ok(parsed)
    ensures forall i :: 0 <= i < |parsed| && parsed[i].Some? ==> parsed[i].value in stations
  {
    forall i | 0 <= i < |parsed| && parsed[i].Some? ensures parsed[i].value in stations {
      assert parsed[i] == ParseSlot(slots[i], stations).value;
    }
  }
}
