/** `layout.py`: the transport graph, read from a header line (the node count) and
    one edge record per line of the form `TYPE; start : waypoint path : end`. */
module Layouts {
  import opened Wrappers
  import opened Text

  datatype EdgeType = Taxi | Bus | Underground | Ferry

  /** The upper-case spelling used in layout files and as ticket names. */
  function TypeName(t: EdgeType): string {
    match t
    case Taxi => "TAXI"
    case Bus => "BUS"
    case Underground => "UNDERGROUND"
    case Ferry => "FERRY"
  }

  /** Membership in `EdgeType.asList()`: recognises exactly the four spellings. */
  function TypeFromName(s: string): (r: Option<EdgeType>)
    ensures r.Some? ==> TypeName(r.value) == s
    ensures forall t :: TypeName(t) == s ==> r == Some(t)
  {
    if s == "TAXI" then Some(Taxi)
    else if s == "BUS" then Some(Bus)
    else if s == "UNDERGROUND" then Some(Underground)
    else if s == "FERRY" then Some(Ferry)
    else None
  }

  /** A stored edge `(start, end, type, path)`; the waypoint path only matters for drawing. */
  datatype Edge = Edge(start: int, end: int, kind: EdgeType, path: seq<int>)

  /** What `_processLine` guarantees of every edge it returns. */
  predicate WellFormedEdge(e: Edge) {
    e.start < e.end && e.start !in e.path && e.end !in e.path
  }

  predicate Incident(e: Edge, n: int) {
    e.start == n || e.end == n
  }

  /** Endpoints put in increasing order. */
  function Normalise(a: int, b: int, kind: EdgeType, path: seq<int>): Edge {
    if a > b then Edge(b, a, kind, path) else Edge(a, b, kind, path)
  }

  /** The waypoint field: empty text is the empty path, otherwise single-space separated integers. */
  function ParsePath(p: string): Result<seq<int>> {
    if p == "" then Ok([]) else ParseInts(Split(p, " "))
  }

  /** `Layout._processLine`: one edge record checked against the edges read before it. */
  function ProcessLine(line: string, earlier: seq<Edge>): (r: Result<Edge>)
    ensures ';' !in line ==> r == Err(ValueError)
    ensures r.Ok? ==> WellFormedEdge(r.value) && r.value !in earlier
  {
    if ';' !in line then
      Err(ValueError)
    else
      var halves := Split(Strip(line), ";");
      if |halves| != 2 then
        Err(ValueError)
      else
        match TypeFromName(Upper(halves[0]))
        case None => Err(ValueError)
        case Some(kind) => ProcessDescription(kind, halves[1], earlier)
  }

  /** The `start : path : end` part of a record. */
  function ProcessDescription(kind: EdgeType, descr: string, earlier: seq<Edge>): (r: Result<Edge>)
    ensures r.Ok? ==> WellFormedEdge(r.value) && r.value !in earlier && r.value.kind == kind
  {
    FieldsEdge(kind, Split(Strip(descr), ":"), earlier)
  }

  /** The description cut at `:`: start, path and end, in that order. */
  function FieldsEdge(kind: EdgeType, fields: seq<string>, earlier: seq<Edge>): (r: Result<Edge>)
    ensures r.Ok? ==> WellFormedEdge(r.value) && r.value !in earlier && r.value.kind == kind
  {
    if |fields| != 3 then
      Err(ValueError)
    else
      ParsedEdge(kind, ParseInt(fields[0]), ParseInt(fields[2]), ParsePath(Strip(fields[1])), earlier)
  }

  /** The edge from the parsed start, end and path: a ValueError when any of them failed to parse. */
  function ParsedEdge(kind: EdgeType, start: Result<int>, end: Result<int>, path: Result<seq<int>>, earlier: seq<Edge>): (r: Result<Edge>)
    ensures r.Ok? ==> WellFormedEdge(r.value) && r.value !in earlier && r.value.kind == kind
    ensures start.Err? || end.Err? || path.Err? ==> r == Err(ValueError)
  {
    if start.Err? || end.Err? || path.Err? then Err(ValueError)
    else MakeEdge(kind, start.value, end.value, path.value, earlier)
  }

  /** The assertions of `_processLine` on the parsed fields, then normalisation. */
  function MakeEdge(kind: EdgeType, start: int, end: int, path: seq<int>, earlier: seq<Edge>): (r: Result<Edge>)
    ensures r.Ok? <==> start !in path && end !in path && start != end && Normalise(start, end, kind, path) !in earlier
    ensures r.Ok? ==> r.value == Normalise(start, end, kind, path) && WellFormedEdge(r.value)
    ensures r.Err? ==> r.error == AssertionError
  {
    if start in path || end in path || start == end then
      Err(AssertionError)
    else
      var e := Normalise(start, end, kind, path);
      if e in earlier then Err(AssertionError) else Ok(e)
  }

  /** An edge record as it is written in a layout file. */
  function FormatLine(token: string, a: int, path: seq<int>, b: int): string {
    token + ";" + FormatDescription(a, path, b)
  }

  function FormatDescription(a: int, path: seq<int>, b: int): string {
    IntToString(a) + ":" + JoinInts(path, " ") + ":" + IntToString(b)
  }

  /** The verdict of `ProcessLine` on every record written in the file format:
      an unknown type is a ValueError; a self-loop, an endpoint on its own path or
      a repeat of an earlier edge is an AssertionError; otherwise the edge is
      returned with its endpoints in increasing order. */
  lemma ProcessFormattedLine(token: string, a: int, path: seq<int>, b: int, earlier: seq<Edge>)
    requires ';' !in token && Trimmed(token)
    ensures ProcessLine(FormatLine(token, a, path, b), earlier) ==
      match TypeFromName(Upper(token))
      case None => Err(ValueError)
      case Some(kind) => MakeEdge(kind, a, b, path, earlier)
  {
    var descr := FormatDescription(a, path, b);
    DescriptionChars(a, path, b);
    FormattedHalves(token, descr);
    match TypeFromName(Upper(token))
    case None =>
    case Some(kind) =>
      FormattedDescription(kind, a, path, b, earlier);
  }

  lemma DescriptionChars(a: int, path: seq<int>, b: int)
    ensures var d := FormatDescription(a, path, b);
            ';' !in d && |d| > 0 && !IsSpace(d[0]) && !IsSpace(d[|d| - 1])
  {
    var sa, sp, sb := IntToString(a), JoinInts(path, " "), IntToString(b);
    var d := FormatDescription(a, path, b);
    NumberCharsOnly(a, ';');
    NumberCharsOnly(b, ';');
    JoinedNumberChars(path, ' ', ';');
    assert d[0] == sa[0];
    assert d[|d| - 1] == sb[|sb| - 1];
  }

  lemma FormattedHalves(token: string, descr: string)
    requires ';' !in token && Trimmed(token)
    requires ';' !in descr && |descr| > 0 && !IsSpace(descr[0]) && !IsSpace(descr[|descr| - 1])
    ensures Split(Strip(token + ";" + descr), ";") == [token, descr]
  {
    var line := token + ";" + descr;
    JoinedLineTrimmed(token, descr);
    assert Join([token, descr], ";") == line by {
      assert [token, descr][1..] == [descr];
    }
    SplitTrimmedJoin(line, [token, descr], ';');
  }

  lemma JoinedLineTrimmed(token: string, descr: string)
    requires Trimmed(token)
    requires |descr| > 0 && !IsSpace(descr[0]) && !IsSpace(descr[|descr| - 1])
    ensures Trimmed(token + ";" + descr)
  {
    var line := token + ";" + descr;
    assert line[|line| - 1] == descr[|descr| - 1];
    assert line[0] == if |token| == 0 then ';' else token[0];
  }

  /** Stripping and splitting a trimmed joined line gives back its parts. */
  lemma SplitTrimmedJoin(line: string, parts: seq<string>, c: char)
    requires |parts| >= 1 && forall i :: 0 <= i < |parts| ==> c !in parts[i]
    requires Trimmed(line) && line == Join(parts, [c])
    ensures Split(Strip(line), [c]) == parts
  {
    StripTrimmed(line);
    SplitJoin(parts, c);
  }

  lemma FormattedDescription(kind: EdgeType, a: int, path: seq<int>, b: int, earlier: seq<Edge>)
    ensures ProcessDescription(kind, FormatDescription(a, path, b), earlier) == MakeEdge(kind, a, b, path, earlier)
  {
    var sp := JoinInts(path, " ");
    DescriptionFields(a, path, b);
    ParseIntToString(a);
    ParseIntToString(b);
    JoinedNumbersTrimmed(path);
    StripTrimmed(sp);
    ParseFormattedPath(path);
    ProcessFields(kind, FormatDescription(a, path, b), IntToString(a), sp, IntToString(b), earlier);
  }

  lemma ProcessFields(kind: EdgeType, descr: string, sa: string, sp: string, sb: string, earlier: seq<Edge>)
    requires Split(Strip(descr), ":") == [sa, sp, sb]
    requires ParseInt(sa).Ok? && ParseInt(sb).Ok? && ParsePath(Strip(sp)).Ok?
    ensures ProcessDescription(kind, descr, earlier) ==
              MakeEdge(kind, ParseInt(sa).value, ParseInt(sb).value, ParsePath(Strip(sp)).value, earlier)
  {
    assert ProcessDescription(kind, descr, earlier) == FieldsEdge(kind, [sa, sp, sb], earlier);
  }

  /** A written description splits at `:` into its three written fields. */
  lemma DescriptionFields(a: int, path: seq<int>, b: int)
    ensures Split(Strip(FormatDescription(a, path, b)), ":") == [IntToString(a), JoinInts(path, " "), IntToString(b)]
  {
    var sa, sp, sb := IntToString(a), JoinInts(path, " "), IntToString(b);
    var descr := FormatDescription(a, path, b);
    DescriptionChars(a, path, b);
    StripTrimmed(descr);
    NumberCharsOnly(a, ':');
    NumberCharsOnly(b, ':');
    JoinedNumberChars(path, ' ', ':');
    SplitJoin([sa, sp, sb], ':');
    JoinThree(sa, sp, sb, ":");
  }

  lemma JoinThree(x: string, y: string, z: string, sep: string)
    ensures Join([x, y, z], sep) == x + sep + y + sep + z
  {
    assert [x, y, z][1..] == [y, z];
    assert [y, z][1..] == [z];
    assert Join([z], sep) == z;
    assert Join([y, z], sep) == y + sep + z;
    assert Join([x, y, z], sep) == x + sep + (y + sep + z);
  }

  lemma NumberCharsOnly(i: int, c: char)
    requires c != '-' && !IsDigit(c)
    ensures c !in IntToString(i)
  {
  }

  lemma JoinedNumberChars(ns: seq<int>, sep: char, c: char)
    requires c != '-' && !IsDigit(c) && c != sep
    ensures c !in JoinInts(ns, [sep])
    decreases |ns|
  {
    if |ns| > 1 {
      JoinedNumberChars(ns[1..], sep, c);
      var strs := seq(|ns|, i requires 0 <= i < |ns| => IntToString(ns[i]));
      assert strs[1..] == seq(|ns| - 1, i requires 0 <= i < |ns| - 1 => IntToString(ns[1..][i]));
      NumberCharsOnly(ns[0], c);
    } else if |ns| == 1 {
      NumberCharsOnly(ns[0], c);
    }
  }

  lemma JoinedNumbersTrimmed(ns: seq<int>)
    ensures Trimmed(JoinInts(ns, " "))
    ensures |ns| > 0 ==> JoinInts(ns, " ") != ""
  {
    var strs := seq(|ns|, i requires 0 <= i < |ns| => IntToString(ns[i]));
    if |ns| > 0 {
      JoinEnds(strs, " ");
    }
  }

  lemma ParseFormattedPath(path: seq<int>)
    ensures ParsePath(JoinInts(path, " ")) == Ok(path)
  {
    if |path| == 0 {
    } else {
      JoinedNumbersTrimmed(path);
      ParseJoinedInts(path, ' ');
    }
  }

  /** Seven runs of blanks for a hand-written record, in order: before the type name,
      after `;`, before and after the first `:`, before and after the second `:`, and
      at the end of the line. None may sit between the type name and `;`, since
      `_processLine` upper-cases that token without stripping it. */
  predicate Blanks(pad: seq<string>) {
    |pad| == 7 && forall i :: 0 <= i < |pad| ==> AllSpace(pad[i])
  }

  /** An edge record in the documented `<type>; <start> : <path> : <end>` shape, with the
      blanks of `pad` in their seven places. */
  function PaddedLine(token: string, pad: seq<string>, a: int, path: seq<int>, b: int): string
    requires Blanks(pad)
  {
    pad[0] + token + ";" + pad[1] + PaddedFields(pad, a, path, b) + pad[6]
  }

  /** The description of a padded record once its outer blanks are stripped. */
  function PaddedFields(pad: seq<string>, a: int, path: seq<int>, b: int): string
    requires Blanks(pad)
  {
    (IntToString(a) + pad[2]) + ":" + (pad[3] + JoinInts(path, " ") + pad[4]) + ":" + (pad[5] + IntToString(b))
  }

  /** The verdict of `ProcessLine` on every record in the documented shape, blanks
      included: the same as on the record written without them. */
  lemma ProcessPaddedLine(token: string, pad: seq<string>, a: int, path: seq<int>, b: int, earlier: seq<Edge>)
    requires ';' !in token && Trimmed(token) && Blanks(pad)
    ensures ProcessLine(PaddedLine(token, pad, a, path, b), earlier) ==
      match TypeFromName(Upper(token))
      case None => Err(ValueError)
      case Some(kind) => MakeEdge(kind, a, b, path, earlier)
  {
    PaddedHalves(token, pad, a, path, b);
    match TypeFromName(Upper(token))
    case None =>
    case Some(kind) =>
      PaddedDescription(kind, pad, a, path, b, earlier);
  }

  lemma PaddedFieldsChars(pad: seq<string>, a: int, path: seq<int>, b: int)
    requires Blanks(pad)
    ensures var d := PaddedFields(pad, a, path, b);
            ';' !in d && |d| > 0 && Trimmed(d)
  {
    var sa, sb := IntToString(a), IntToString(b);
    var d := PaddedFields(pad, a, path, b);
    PaddedFieldsFree(pad, a, path, b, ';');
    assert d[0] == sa[0];
    assert d[|d| - 1] == sb[|sb| - 1];
  }

  /** No field of a padded description holds a character that is neither a blank nor part of a number. */
  lemma PaddedFieldsFree(pad: seq<string>, a: int, path: seq<int>, b: int, c: char)
    requires Blanks(pad) && !IsSpace(c) && !IsDigit(c) && c != '-'
    ensures c !in IntToString(a) + pad[2]
    ensures c !in pad[3] + JoinInts(path, " ") + pad[4]
    ensures c !in pad[5] + IntToString(b)
  {
    NumberCharsOnly(a, c);
    NumberCharsOnly(b, c);
    JoinedNumberChars(path, ' ', c);
    BlankFree(pad[2], c);
    BlankFree(pad[3], c);
    BlankFree(pad[4], c);
    BlankFree(pad[5], c);
  }

  lemma BlankFree(blank: string, c: char)
    requires AllSpace(blank) && !IsSpace(c)
    ensures c !in blank
  {
  }

  /** Blanks in front of a `;`-free text keep it `;`-free. */
  lemma BlanksFree(pre: string, core: string)
    requires AllSpace(pre) && ';' !in core
    ensures ';' !in pre + core
  {
    var d := pre + core;
    forall k | 0 <= k < |d| ensures d[k] != ';' {
      if k < |pre| {
        assert IsSpace(pre[k]);
      } else {
        assert d[k] == core[k - |pre|];
      }
    }
  }

  /** The padded line strips and cuts at `;` into the type name and the description. */
  lemma PaddedHalves(token: string, pad: seq<string>, a: int, path: seq<int>, b: int)
    requires ';' !in token && Trimmed(token) && Blanks(pad)
    ensures ';' in PaddedLine(token, pad, a, path, b)
    ensures Split(Strip(PaddedLine(token, pad, a, path, b)), ";") == [token, pad[1] + PaddedFields(pad, a, path, b)]
  {
    var core := PaddedFields(pad, a, path, b);
    PaddedFieldsChars(pad, a, path, b);
    BlanksFree(pad[1], core);
    PaddedStrip(token, pad, a, path, b);
    SplitTwo(token, pad[1] + core);
  }

  /** Stripping a padded line removes exactly the blanks around it. */
  lemma PaddedStrip(token: string, pad: seq<string>, a: int, path: seq<int>, b: int)
    requires Trimmed(token) && Blanks(pad)
    ensures ';' in PaddedLine(token, pad, a, path, b)
    ensures Strip(PaddedLine(token, pad, a, path, b)) == token + ";" + (pad[1] + PaddedFields(pad, a, path, b))
  {
    var core := PaddedFields(pad, a, path, b);
    PaddedFieldsChars(pad, a, path, b);
    var line := token + ";" + (pad[1] + core);
    assert PaddedLine(token, pad, a, path, b) == pad[0] + line + pad[6];
    TypedLineTrimmed(token, pad[1], core);
    StripPadding(pad[0], line, pad[6]);
  }

  /** A type name, `;`, blanks and a non-empty trimmed description make a trimmed line. */
  lemma TypedLineTrimmed(token: string, blank: string, core: string)
    requires Trimmed(token) && |core| > 0 && Trimmed(core)
    ensures var line := token + ";" + (blank + core);
            ';' in line && Trimmed(line)
  {
    var line := token + ";" + (blank + core);
    assert line[|token|] == ';';
    assert line[|line| - 1] == core[|core| - 1];
    assert line[0] == if |token| == 0 then ';' else token[0];
  }

  /** A text with exactly one `;` cuts into the two sides of it. */
  lemma SplitTwo(left: string, right: string)
    requires ';' !in left && ';' !in right
    ensures Split(left + ";" + right, ";") == [left, right]
  {
    SplitAt(left, ";", right);
    SplitFree(right, ";");
  }

  /** The description of a padded record gives the edge its numbers describe. */
  lemma PaddedDescription(kind: EdgeType, pad: seq<string>, a: int, path: seq<int>, b: int, earlier: seq<Edge>)
    requires Blanks(pad)
    ensures ProcessDescription(kind, pad[1] + PaddedFields(pad, a, path, b), earlier) == MakeEdge(kind, a, b, path, earlier)
  {
    var f0, f1, f2 := IntToString(a) + pad[2], pad[3] + JoinInts(path, " ") + pad[4], pad[5] + IntToString(b);
    PaddedSplit(pad, a, path, b);
    PaddedFieldValues(pad, a, path, b);
    ProcessFields(kind, pad[1] + PaddedFields(pad, a, path, b), f0, f1, f2, earlier);
  }

  /** Each padded field reads back as the number or the path it holds. */
  lemma PaddedFieldValues(pad: seq<string>, a: int, path: seq<int>, b: int)
    requires Blanks(pad)
    ensures ParseInt(IntToString(a) + pad[2]) == Ok(a)
    ensures ParsePath(Strip(pad[3] + JoinInts(path, " ") + pad[4])) == Ok(path)
    ensures ParseInt(pad[5] + IntToString(b)) == Ok(b)
  {
    ParseIntBefore(a, pad[2]);
    ParseIntAfter(pad[5], b);
    PaddedPath(pad[3], path, pad[4]);
  }

  lemma ParseIntBefore(i: int, post: string)
    requires AllSpace(post)
    ensures ParseInt(IntToString(i) + post) == Ok(i)
  {
    var t := IntToString(i);
    assert [] + t == t;
    ParseIntPadded([], i, post);
  }

  lemma ParseIntAfter(pre: string, i: int)
    requires AllSpace(pre)
    ensures ParseInt(pre + IntToString(i)) == Ok(i)
  {
    ParseIntPadded(pre, i, []);
    assert pre + IntToString(i) + [] == pre + IntToString(i);
  }

  lemma PaddedPath(pre: string, path: seq<int>, post: string)
    requires AllSpace(pre) && AllSpace(post)
    ensures ParsePath(Strip(pre + JoinInts(path, " ") + post)) == Ok(path)
  {
    JoinedNumbersTrimmed(path);
    StripPadding(pre, JoinInts(path, " "), post);
    ParseFormattedPath(path);
  }

  /** Stripped and cut at `:`, a padded description gives its three padded fields. */
  lemma PaddedSplit(pad: seq<string>, a: int, path: seq<int>, b: int)
    requires Blanks(pad)
    ensures Split(Strip(pad[1] + PaddedFields(pad, a, path, b)), ":") ==
              [IntToString(a) + pad[2], pad[3] + JoinInts(path, " ") + pad[4], pad[5] + IntToString(b)]
  {
    var f0, f1, f2 := IntToString(a) + pad[2], pad[3] + JoinInts(path, " ") + pad[4], pad[5] + IntToString(b);
    PaddedCoreStrip(pad, a, path, b);
    PaddedFieldsFree(pad, a, path, b, ':');
    StrippedThree(pad[1] + PaddedFields(pad, a, path, b), f0, f1, f2);
  }

  /** A text that strips to two `:` between `:`-free pieces cuts into those pieces. */
  lemma StrippedThree(d: string, x: string, y: string, z: string)
    requires Strip(d) == x + ":" + y + ":" + z
    requires ':' !in x && ':' !in y && ':' !in z
    ensures Split(Strip(d), ":") == [x, y, z]
  {
    SplitThree(x, y, z);
  }

  lemma PaddedCoreStrip(pad: seq<string>, a: int, path: seq<int>, b: int)
    requires Blanks(pad)
    ensures Strip(pad[1] + PaddedFields(pad, a, path, b)) == PaddedFields(pad, a, path, b)
  {
    var core := PaddedFields(pad, a, path, b);
    PaddedFieldsChars(pad, a, path, b);
    StripPadding(pad[1], core, []);
    assert pad[1] + core + [] == pad[1] + core;
  }

  /** A text with exactly two `:` cuts into the three pieces between them. */
  lemma SplitThree(x: string, y: string, z: string)
    requires ':' !in x && ':' !in y && ':' !in z
    ensures Split(x + ":" + y + ":" + z, ":") == [x, y, z]
  {
    SplitJoin([x, y, z], ':');
    JoinThree(x, y, z, ":");
  }

  /** The state kept by `Layout`: the node count from the header line, the edges in
      file order, the set of edge types seen (`edge_types`) and, per node, the types
      of the edges touching it (`nodes`). */
  datatype Layout = Layout(numNodes: int, edges: seq<Edge>, edgeTypes: set<EdgeType>, stations: map<int, set<EdgeType>>)

  /** Reference definitions of the derived fields, computed from the edges alone. */
  function KindsOf(edges: seq<Edge>): set<EdgeType> {
    set i | 0 <= i < |edges| :: edges[i].kind
  }

  function EndpointsOf(edges: seq<Edge>): set<int> {
    (set i | 0 <= i < |edges| :: edges[i].start) + (set i | 0 <= i < |edges| :: edges[i].end)
  }

  function StationTypes(edges: seq<Edge>, n: int): set<EdgeType> {
    set i | 0 <= i < |edges| && Incident(edges[i], n) :: edges[i].kind
  }

  predicate DistinctEdges(edges: seq<Edge>) {
    forall i, j :: 0 <= i < j < |edges| ==> edges[i] != edges[j]
  }

  /** What every layout built from a file satisfies. */
  predicate Consistent(l: Layout) {
    && (forall i :: 0 <= i < |l.edges| ==> WellFormedEdge(l.edges[i]))
    && DistinctEdges(l.edges)
    && l.edgeTypes == KindsOf(l.edges)
    && l.stations.Keys == EndpointsOf(l.edges)
    && (forall n :: n in l.stations ==> l.stations[n] == StationTypes(l.edges, n))
  }

  /** `nodes[n].add(t)`, creating the entry first when it is missing. */
  function AddStation(m: map<int, set<EdgeType>>, n: int, t: EdgeType): (r: map<int, set<EdgeType>>)
    ensures r.Keys == m.Keys + {n}
    ensures r[n] == (if n in m then m[n] else {}) + {t}
    ensures forall k :: k in m && k != n ==> r[k] == m[k]
  {
    m[n := (if n in m then m[n] else {}) + {t}]
  }

  /** One iteration of the construction loop. */
  function AddEdge(l: Layout, e: Edge): Layout {
    Layout(l.numNodes, l.edges + [e], l.edgeTypes + {e.kind},
           AddStation(AddStation(l.stations, e.start, e.kind), e.end, e.kind))
  }

  lemma AddEdgeConsistent(l: Layout, e: Edge)
    requires Consistent(l) && WellFormedEdge(e) && e !in l.edges
    ensures Consistent(AddEdge(l, e))
  {
    var r := AddEdge(l, e);
    KindsAppend(l.edges, e);
    EndpointsAdd(l.edges, e);
    EdgesAppend(l.edges, e);
    forall n | n in r.stations
      ensures r.stations[n] == StationTypes(r.edges, n)
    {
      StationAfter(l, e, n);
    }
  }

  lemma KindsAppend(edges: seq<Edge>, e: Edge)
    ensures KindsOf(edges + [e]) == KindsOf(edges) + {e.kind}
  {
    var all := edges + [e];
    assert forall i :: 0 <= i < |edges| ==> all[i] == edges[i];
    assert all[|edges|] == e;
  }

  lemma EndpointsAdd(edges: seq<Edge>, e: Edge)
    ensures EndpointsOf(edges + [e]) == EndpointsOf(edges) + {e.start, e.end}
  {
    var all := edges + [e];
    assert forall i :: 0 <= i < |edges| ==> all[i] == edges[i];
    assert all[|edges|] == e;
  }

  /** A new well-formed edge keeps the edge list well formed and repetition-free. */
  lemma EdgesAppend(edges: seq<Edge>, e: Edge)
    requires (forall i :: 0 <= i < |edges| ==> WellFormedEdge(edges[i])) && DistinctEdges(edges)
    requires WellFormedEdge(e) && e !in edges
    ensures forall i :: 0 <= i < |edges + [e]| ==> WellFormedEdge((edges + [e])[i])
    ensures DistinctEdges(edges + [e])
  {
    var all := edges + [e];
    assert forall i :: 0 <= i < |edges| ==> all[i] == edges[i];
  }

  /** The station entry of one node after recording `e` lists the types of its edges. */
  lemma StationAfter(l: Layout, e: Edge, n: int)
    requires Consistent(l)
    requires n in AddEdge(l, e).stations
    ensures AddEdge(l, e).stations[n] == StationTypes(l.edges + [e], n)
  {
    StationTypesAppend(l.edges, e, n);
    if n !in l.stations {
      assert n !in EndpointsOf(l.edges);
      assert StationTypes(l.edges, n) == {} by {
        forall i | 0 <= i < |l.edges| ensures !Incident(l.edges[i], n) {
          assert l.edges[i].start in EndpointsOf(l.edges) && l.edges[i].end in EndpointsOf(l.edges);
        }
      }
    }
  }

  lemma StationTypesAppend(edges: seq<Edge>, e: Edge, n: int)
    ensures StationTypes(edges + [e], n) == StationTypes(edges, n) + (if Incident(e, n) then {e.kind} else {})
  {
    var all := edges + [e];
    assert forall i :: 0 <= i < |edges| ==> all[i] == edges[i];
    assert all[|edges|] == e;
  }

  function EmptyLayout(numNodes: int): (r: Layout)
    ensures Consistent(r)
  {
    Layout(numNodes, [], {}, map[])
  }

  /** A reader of one edge record against the edges stored before it; the
      construction loop is stated for any reader so that its proofs do not
      depend on how a record is parsed. */
  type Reader = (string, seq<Edge>) -> Result<Edge>

  /** What the loop needs of a reader: what it accepts is a new, well-formed edge. */
  ghost predicate SoundReader(read: Reader) {
    forall line, earlier :: read(line, earlier).Ok? ==>
      WellFormedEdge(read(line, earlier).value) && read(line, earlier).value !in earlier
  }

  lemma ProcessLineSound()
    ensures SoundReader(ProcessLine)
  {
  }

  /** `added` are the edges the records `lines` yield one after the other,
      each read against `earlier` and the edges added before it. */
  ghost predicate Recorded(read: Reader, lines: seq<string>, earlier: seq<Edge>, added: seq<Edge>)
    decreases |lines|
  {
    |lines| == |added| &&
    (|lines| == 0 ||
     (read(lines[0], earlier) == Ok(added[0]) && Recorded(read, lines[1..], earlier + [added[0]], added[1..])))
  }

  /** The construction loop over the edge records: each record is read
      against the edges already stored and the first failure aborts. */
  function ReadEdges(read: Reader, l: Layout, lines: seq<string>): (r: Result<Layout>)
    requires SoundReader(read)
    ensures r.Ok? ==> r.value.numNodes == l.numNodes
    ensures r.Ok? ==> |r.value.edges| == |l.edges| + |lines| && r.value.edges[..|l.edges|] == l.edges
    ensures r.Ok? ==> Recorded(read, lines, l.edges, r.value.edges[|l.edges|..])
    decreases |lines|
  {
    if |lines| == 0 then
      assert Recorded(read, lines, l.edges, []);
      Ok(l)
    else
      var e :- read(lines[0], l.edges);
      var l' := AddEdge(l, e);
      var r := ReadEdges(read, l', lines[1..]);
      assert r.Ok? ==> r.value.edges[..|l.edges|] == r.value.edges[..|l'.edges|][..|l.edges|];
      assert r.Ok? ==> var added := r.value.edges[|l.edges|..];
                       added[0] == e && added[1..] == r.value.edges[|l'.edges|..];
      r
  }

  /** The loop keeps the derived fields in step with the stored edges. */
  lemma {:induction false} ReadEdgesConsistent(read: Reader, l: Layout, lines: seq<string>)
    requires SoundReader(read) && Consistent(l)
    ensures ReadEdges(read, l, lines).Ok? ==> Consistent(ReadEdges(read, l, lines).value)
    decreases |lines|
  {
    if |lines| > 0 {
      var first := read(lines[0], l.edges);
      if first.Ok? {
        AddEdgeConsistent(l, first.value);
        ReadEdgesConsistent(read, AddEdge(l, first.value), lines[1..]);
      }
    }
  }

  /** Conversely, whenever the records can be read one after the other, the
      loop succeeds and stores exactly those edges after the earlier ones. */
  lemma {:induction false} RecordedAccepted(read: Reader, l: Layout, lines: seq<string>, added: seq<Edge>)
    requires SoundReader(read)
    requires Recorded(read, lines, l.edges, added)
    ensures ReadEdges(read, l, lines).Ok?
    ensures ReadEdges(read, l, lines).value.edges == l.edges + added
    decreases |lines|
  {
    if |lines| > 0 {
      var l' := AddEdge(l, added[0]);
      ReadEdgesStep(read, l, lines);
      RecordedAccepted(read, l', lines[1..], added[1..]);
      assert l'.edges + added[1..] == l.edges + added;
    }
  }

  /** One accepted record: the loop goes on from the layout with that edge added. */
  lemma ReadEdgesStep(read: Reader, l: Layout, lines: seq<string>)
    requires SoundReader(read)
    requires |lines| > 0 && read(lines[0], l.edges).Ok?
    ensures ReadEdges(read, l, lines) == ReadEdges(read, AddEdge(l, read(lines[0], l.edges).value), lines[1..])
  {
  }

  /** A record no reading can accept makes the whole batch fail. */
  lemma {:induction false} ReadEdgesRejects(read: Reader, l: Layout, lines: seq<string>, k: nat)
    requires SoundReader(read)
    requires k < |lines| && forall earlier :: read(lines[k], earlier).Err?
    ensures ReadEdges(read, l, lines).Err?
    decreases |lines|
  {
    if k > 0 {
      var first := read(lines[0], l.edges);
      if first.Ok? {
        assert lines[1..][k - 1] == lines[k];
        ReadEdgesStep(read, l, lines);
        ReadEdgesRejects(read, AddEdge(l, first.value), lines[1..], k - 1);
      }
    }
  }

  /** `Layout.__init__` on the lines of a layout file: the node count on the
      first line, then one edge record per line. */
  function ParseLayout(lines: seq<string>): (r: Result<Layout>)
    ensures |lines| == 0 ==> r == Err(IndexError)
    ensures r.Ok? ==> Consistent(r.value) && ParseInt(lines[0]) == Ok(r.value.numNodes)
  {
    if |lines| == 0 then
      Err(IndexError)
    else
      var n :- ParseInt(lines[0]);
      ProcessLineSound();
      ReadEdgesConsistent(ProcessLine, EmptyLayout(n), lines[1..]);
      ReadEdges(ProcessLine, EmptyLayout(n), lines[1..])
  }

  /** Every stored edge is what its record yields against the edges before it. */
  lemma ParseLayoutRecords(lines: seq<string>)
    ensures ParseLayout(lines).Ok? ==> Recorded(ProcessLine, lines[1..], [], ParseLayout(lines).value.edges)
  {
    if |lines| > 0 && ParseInt(lines[0]).Ok? {
      var n := ParseInt(lines[0]).value;
      ParseLayoutTail(lines, n);
      var r := ReadEdges(ProcessLine, EmptyLayout(n), lines[1..]);
      if r.Ok? {
        assert r.value.edges[|EmptyLayout(n).edges|..] == r.value.edges;
      }
    }
  }

  /** A record that no reading accepts, anywhere after the header, rejects the file. */
  lemma ParseLayoutRejects(lines: seq<string>, k: nat)
    requires 1 <= k < |lines| && forall earlier :: ProcessLine(lines[k], earlier).Err?
    ensures ParseLayout(lines).Err?
  {
    if ParseInt(lines[0]).Ok? {
      var n := ParseInt(lines[0]).value;
      ParseLayoutTail(lines, n);
      RecordRejected(ProcessLine, EmptyLayout(n), lines, k);
    } else {
      HeaderRejected(lines);
    }
  }

  lemma HeaderRejected(lines: seq<string>)
    requires |lines| > 0 && ParseInt(lines[0]).Err?
    ensures ParseLayout(lines).Err?
  {
  }

  lemma RecordRejected(read: Reader, l: Layout, lines: seq<string>, k: nat)
    requires SoundReader(read)
    requires 1 <= k < |lines| && forall earlier :: read(lines[k], earlier).Err?
    ensures ReadEdges(read, l, lines[1..]).Err?
  {
    var records := lines[1..];
    assert records[k - 1] == lines[k];
    ReadEdgesRejects(read, l, records, k - 1);
  }

  /** In particular, a record line without `;` rejects the file. */
  lemma MissingSemicolonRejected(lines: seq<string>, k: nat)
    requires 1 <= k < |lines| && ';' !in lines[k]
    ensures ParseLayout(lines).Err?
  {
    NoSemicolonRejected(lines[k]);
    ParseLayoutRejects(lines, k);
  }

  lemma NoSemicolonRejected(line: string)
    requires ';' !in line
    ensures forall earlier :: ProcessLine(line, earlier).Err?
  {
  }

  /** The record that writes an edge back in the file format. */
  function EdgeRecord(e: Edge): string {
    FormatLine(TypeName(e.kind), e.start, e.path, e.end)
  }

  /** A layout file: the node count, then one record per edge. */
  function FormatLayout(numNodes: int, edges: seq<Edge>): seq<string> {
    [IntToString(numNodes)] + Records(EdgeRecord, edges)
  }

  /** One record per edge, in order. */
  function Records(format: Edge -> string, edges: seq<Edge>): (r: seq<string>)
    ensures |r| == |edges| && forall i :: 0 <= i < |edges| ==> r[i] == format(edges[i])
    decreases |edges|
  {
    if |edges| == 0 then [] else [format(edges[0])] + Records(format, edges[1..])
  }

  lemma TypeNameToken(t: EdgeType)
    ensures ';' !in TypeName(t) && Trimmed(TypeName(t))
    ensures TypeFromName(Upper(TypeName(t))) == Some(t)
  {
    assert Upper(TypeName(t)) == TypeName(t);
  }

  /** Every well-formed edge not stored yet is read back from its own record. */
  lemma EdgeRecordRead(e: Edge, earlier: seq<Edge>)
    requires WellFormedEdge(e) && e !in earlier
    ensures ProcessLine(EdgeRecord(e), earlier) == Ok(e)
  {
    TypeNameToken(e.kind);
    ProcessFormattedLine(TypeName(e.kind), e.start, e.path, e.end, earlier);
  }

  /** A reader that reads back every new well-formed edge from the record `format` writes for it. */
  ghost predicate ReadsBack(read: Reader, format: Edge -> string) {
    forall e, earlier :: WellFormedEdge(e) && e !in earlier ==> read(format(e), earlier) == Ok(e)
  }

  lemma {:induction false} RecordsRead(read: Reader, format: Edge -> string, earlier: seq<Edge>, rest: seq<Edge>)
    requires ReadsBack(read, format)
    requires forall i :: 0 <= i < |rest| ==> WellFormedEdge(rest[i])
    requires DistinctEdges(earlier + rest)
    ensures Recorded(read, Records(format, rest), earlier, rest)
    decreases |rest|
  {
    var lines := Records(format, rest);
    if |rest| > 0 {
      var all := earlier + rest;
      assert rest[0] !in earlier by {
        forall j | 0 <= j < |earlier|
          ensures earlier[j] != rest[0]
        {
          assert all[j] == earlier[j] && all[|earlier|] == rest[0];
        }
      }
      assert (earlier + [rest[0]]) + rest[1..] == all;
      RecordsRead(read, format, earlier + [rest[0]], rest[1..]);
      assert lines[1..] == Records(format, rest[1..]);
    }
  }

  lemma ProcessLineReadsBack()
    ensures ReadsBack(ProcessLine, EdgeRecord)
  {
    forall e, earlier | WellFormedEdge(e) && e !in earlier
      ensures ProcessLine(EdgeRecord(e), earlier) == Ok(e)
    {
      EdgeRecordRead(e, earlier);
    }
  }

  /** Writing distinct well-formed edges out and reading the file back gives the same layout. */
  lemma LayoutRoundTrip(numNodes: int, edges: seq<Edge>)
    requires forall i :: 0 <= i < |edges| ==> WellFormedEdge(edges[i])
    requires DistinctEdges(edges)
    ensures ParseLayout(FormatLayout(numNodes, edges)).Ok?
    ensures ParseLayout(FormatLayout(numNodes, edges)).value.numNodes == numNodes
    ensures ParseLayout(FormatLayout(numNodes, edges)).value.edges == edges
  {
    var records := Records(EdgeRecord, edges);
    ParseIntToString(numNodes);
    ParseLayoutReads(IntToString(numNodes), records, numNodes);
    assert [] + edges == edges;
    ProcessLineReadsBack();
    RecordsRead(ProcessLine, EdgeRecord, [], edges);
    RecordedAccepted(ProcessLine, EmptyLayout(numNodes), records, edges);
  }

  lemma ParseLayoutReads(header: string, records: seq<string>, numNodes: int)
    requires ParseInt(header) == Ok(numNodes)
    ensures SoundReader(ProcessLine)
    ensures ParseLayout([header] + records) == ReadEdges(ProcessLine, EmptyLayout(numNodes), records)
  {
    var lines := [header] + records;
    assert lines[0] == header && lines[1..] == records;
    ParseLayoutTail(lines, numNodes);
  }

  lemma ParseLayoutTail(lines: seq<string>, numNodes: int)
    requires |lines| > 0 && ParseInt(lines[0]) == Ok(numNodes)
    ensures SoundReader(ProcessLine)
    ensures ParseLayout(lines) == ReadEdges(ProcessLine, EmptyLayout(numNodes), lines[1..])
  {
    ProcessLineSound();
  }

  /** An edge seen from one of its endpoints: that endpoint first. */
  function Oriented(e: Edge, n: int): Edge {
    if e.start != n then Edge(e.end, e.start, e.kind, e.path) else e
  }

  /** `Layout.getEdgesFromNode`: the edges touching `n`, in stored order, each
      turned so that it starts at `n`. */
  function EdgesFrom(edges: seq<Edge>, n: int): (r: seq<Edge>)
    ensures |r| <= |edges|
    ensures forall i :: 0 <= i < |r| ==> r[i].start == n
    ensures forall d :: d in r <==> exists e :: e in edges && Incident(e, n) && d == Oriented(e, n)
    decreases |edges|
  {
    if |edges| == 0 then
      []
    else
      var rest := EdgesFrom(edges[1..], n);
      assert forall e :: e in edges <==> e == edges[0] || e in edges[1..];
      if Incident(edges[0], n) then [Oriented(edges[0], n)] + rest else rest
  }

  /** `getEdgesFromNode` keeps the stored order: over a concatenation it is the
      concatenation of the two results. */
  lemma {:induction false} EdgesFromAppend(a: seq<Edge>, b: seq<Edge>, n: int)
    ensures EdgesFrom(a + b, n) == EdgesFrom(a, n) + EdgesFrom(b, n)
    decreases |a|
  {
    if |a| == 0 {
      assert a + b == b;
    } else {
      assert (a + b)[0] == a[0] && (a + b)[1..] == a[1..] + b;
      EdgesFromAppend(a[1..], b, n);
    }
  }

  /** One stored edge contributes itself, turned to start at `n`, exactly when it
      touches `n`; together with `EdgesFromAppend` this fixes the whole result,
      order and repetitions included. */
  lemma EdgesFromOne(e: Edge, n: int)
    ensures EdgesFrom([e], n) == if Incident(e, n) then [Oriented(e, n)] else []
  {
    assert [e][1..] == [];
  }

  /** The graph is undirected: `m` is reachable from `n` by an edge exactly when
      `n` is reachable from `m` by the same edge. */
  lemma Undirected(edges: seq<Edge>, n: int, m: int, kind: EdgeType, path: seq<int>)
    requires forall i :: 0 <= i < |edges| ==> WellFormedEdge(edges[i])
    ensures Edge(n, m, kind, path) in EdgesFrom(edges, n) <==> Edge(m, n, kind, path) in EdgesFrom(edges, m)
  {
    if Edge(n, m, kind, path) in EdgesFrom(edges, n) {
      var e :| e in edges && Incident(e, n) && Edge(n, m, kind, path) == Oriented(e, n);
      assert Incident(e, m) && Edge(m, n, kind, path) == Oriented(e, m);
    }
    if Edge(m, n, kind, path) in EdgesFrom(edges, m) {
      var e :| e in edges && Incident(e, m) && Edge(m, n, kind, path) == Oriented(e, m);
      assert Incident(e, n) && Edge(n, m, kind, path) == Oriented(e, n);
    }
  }

  /** `Layout.__eq__`: compares the node count and the edge list only. */
  function SameLayout(a: Layout, b: Layout): bool {
    a.numNodes == b.numNodes && a.edges == b.edges
  }

  /** On layouts built from files that comparison is full equality: the types and
      stations are determined by the edges. */
  lemma SameLayoutIsEquality(a: Layout, b: Layout)
    requires Consistent(a) && Consistent(b)
    ensures SameLayout(a, b) <==> a == b
  {
    if SameLayout(a, b) {
      assert a.stations == b.stations;
    }
  }
}
