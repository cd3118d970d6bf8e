/**
  read_graph: the red-black graph of a species x characters 0/1 matrix.  The
  file is given as the sequence of lines std::getline yields.  The first line
  holds the number of species, the number of characters and then the
  characters to make active; every later line holds matrix cells, one
  non-blank character each, read row by row.  Species are named s0, s1, ...
  and characters c0, c1, ...; a '1' cell is a black edge.
*/
module RBGraphReader {
  import opened Seqs
  import opened Decimal
  import opened RBGraphCore
  import opened RBGraphOps
  import opened RBGraphs

  /** Why read_graph throws std::runtime_error. */
  datatype ReadError =
    | HeaderIncomplete      // fewer than two numbers on the first line
    | InexistentCharacter   // a listed character is not below the number of characters
    | BadlyFormattedLine0   // zero species or zero characters
    | OversizedMatrix       // a '1' cell past the last row
    | UnexpectedValue       // a cell other than '0' and '1'
    | UndersizedMatrix      // the number of cells is not species x characters
    | EmptyFile             // no line at all
    | GraphError(reason: Failure)  // add_species, add_character or add_edge threw

  /** The graph as it stands, and the error read_graph has thrown, if any. */
  datatype Run = Run(graph: Graph, error: Option<ReadError>)

  /** What the first line says. */
  datatype Header = Header(numS: nat, numC: nat, listed: seq<nat>)

  datatype Parsed<T> = Parsed(value: T) | Failed(error: ReadError)

  //---------------------------------------------------------------------------
  // Text: white space, digits and the numbers of the first line

  /** isspace in the C locale. */
  predicate IsSpace(c: char)
  {
    c == ' ' || c == '\t' || c == '\n' || c == '\U{000B}' || c == '\U{000C}' || c == '\r'
  }

  predicate IsDigit(c: char)
  {
    '0' <= c <= '9'
  }

  /** The number of white-space characters s starts with. */
  function LeadingSpaces(s: string): (n: nat)
    ensures n <= |s|
    ensures forall k :: 0 <= k < n ==> IsSpace(s[k])
    ensures n < |s| ==> !IsSpace(s[n])
  {
    if s != [] && IsSpace(s[0]) then 1 + LeadingSpaces(s[1..]) else 0
  }

  /** The number of decimal digits s starts with. */
  function LeadingDigits(s: string): (n: nat)
    ensures n <= |s|
    ensures forall k :: 0 <= k < n ==> IsDigit(s[k])
    ensures n < |s| ==> !IsDigit(s[n])
  {
    if s != [] && IsDigit(s[0]) then 1 + LeadingDigits(s[1..]) else 0
  }

  /**
    The numbers `iss >> read` extracts from s into a size_t, one after the
    other, until an extraction fails: white space is skipped, then a run of
    digits is one number; anything else ends the line.
  */
  function HeaderNumbers(s: string): seq<nat>
    decreases |s|
  {
    var t := s[LeadingSpaces(s)..];
    var d := LeadingDigits(t);
    if d == 0 then [] else [ParseNat(t[..d])] + HeaderNumbers(t[d..])
  }

  /**
    The first line: the two counts, then the listed characters, each of which
    must be below the number of characters; zero species or characters is
    refused after the whole line is read.
  */
  function HeaderOf(line: string): (r: Parsed<Header>)
    ensures r.Parsed? ==> r.value.numS > 0 && r.value.numC > 0
    ensures r.Parsed? ==> forall k :: 0 <= k < |r.value.listed| ==> r.value.listed[k] < r.value.numC
  {
    var ns := HeaderNumbers(line);
    if |ns| < 2 then Failed(HeaderIncomplete)
    else if exists k :: 2 <= k < |ns| && ns[k] >= ns[1] then Failed(InexistentCharacter)
    else if ns[0] == 0 || ns[1] == 0 then Failed(BadlyFormattedLine0)
    else Parsed(Header(ns[0], ns[1], ns[2..]))
  }

  /** The numbers separated by single blanks, as a header line is written. */
  function Render(ns: seq<nat>): string
  {
    if ns == [] then ""
    else if |ns| == 1 then NatToString(ns[0])
    else NatToString(ns[0]) + (" " + Render(ns[1..]))
  }

  /** Reading back a written line of numbers gives the numbers. */
  lemma {:induction false} RenderRead(ns: seq<nat>)
    ensures HeaderNumbers(Render(ns)) == ns
  {
    if ns != [] {
      var d := NatToString(ns[0]);
      ParseNatToString(ns[0]);
      var r := if |ns| == 1 then "" else " " + Render(ns[1..]);
      assert Render(ns) == d + r;
      NumberThenRest(d, r);
      if |ns| == 1 {
        assert HeaderNumbers(r) == ns[1..];
      } else {
        RenderRead(ns[1..]);
        BlankThenRest(Render(ns[1..]));
      }
      Cons(ns);
    }
  }

  /** A number followed by a non-digit is read, then the reading goes on after it. */
  lemma NumberThenRest(d: string, rest: string)
    requires d != [] && forall k :: 0 <= k < |d| ==> IsDigit(d[k])
    requires rest == [] || !IsDigit(rest[0])
    ensures HeaderNumbers(d + rest) == [ParseNat(d)] + HeaderNumbers(rest)
  {
    DigitsThenRest(d, rest);
    var s := d + rest;
    assert s[0..] == s;
    assert s[..|d|] == d && s[|d|..] == rest;
  }

  /** A leading blank is skipped. */
  lemma BlankThenRest(x: string)
    ensures HeaderNumbers(" " + x) == HeaderNumbers(x)
  {
    var s := " " + x;
    assert s[1..] == x;
    assert LeadingSpaces(s) == 1 + LeadingSpaces(x);
    assert s[LeadingSpaces(s)..] == x[LeadingSpaces(x)..];
  }

  /** A rendering starts with no blank, and its digits stop where the rest begins. */
  lemma {:induction false} DigitsThenRest(d: string, rest: string)
    requires d != [] && forall k :: 0 <= k < |d| ==> IsDigit(d[k])
    requires rest == [] || !IsDigit(rest[0])
    ensures LeadingSpaces(d + rest) == 0
    ensures LeadingDigits(d + rest) == |d|
  {
    if |d| > 1 {
      DigitsThenRest(d[1..], rest);
      assert (d + rest)[1..] == d[1..] + rest;
    } else {
      assert (d + rest)[1..] == rest;
    }
  }

  /** A header written by Render is read back as the same header. */
  lemma HeaderRoundTrip(h: Header)
    requires h.numS > 0 && h.numC > 0
    requires forall k :: 0 <= k < |h.listed| ==> h.listed[k] < h.numC
    ensures HeaderOf(Render([h.numS, h.numC] + h.listed)) == Parsed(h)
  {
    var ns := [h.numS, h.numC] + h.listed;
    RenderRead(ns);
    assert ns[2..] == h.listed;
  }

  //---------------------------------------------------------------------------
  // The graph read_graph builds

  /** The name of the j-th species ("s") or character ("c"). */
  function Name(prefix: string, j: nat): string
  {
    prefix + NatToString(j)
  }

  /** add_species or add_character of name, unless an earlier step has thrown. */
  function AddNamed(r: Run, name: string, t: Type): Run
  {
    if r.error.Some? then r
    else match AddVertex(r.graph, name, t)
      case Fail(e) => Run(r.graph, Some(GraphError(e)))
      case Ok(G') => Run(G', None)
  }

  /** The vertices prefix0, ..., prefix(n-1) of type t, added in order. */
  function AddNames(r: Run, prefix: string, t: Type, n: nat): Run
  {
    if n == 0 then r else AddNamed(AddNames(r, prefix, t, n - 1), Name(prefix, n - 1), t)
  }

  /** The characters `iss >> value` extracts from one line: every non-blank one. */
  function NonBlank(s: string): string
  {
    if s == [] then []
    else NonBlank(s[..|s| - 1]) + (if IsSpace(s[|s| - 1]) then [] else [s[|s| - 1]])
  }

  /** The matrix cells of the lines after the first, in reading order. */
  function Cells(lines: seq<string>): string
  {
    if lines == [] then []
    else Cells(lines[..|lines| - 1]) + NonBlank(lines[|lines| - 1])
  }

  /**
    The cell c at running index k: a '1' joins species k / numC and character
    k % numC by a black edge, unless that species does not exist; a '0' is
    skipped; anything else is refused.
  */
  function Cell(r: Run, h: Header, k: nat, c: char): Run
    requires h.numC > 0
  {
    if r.error.Some? then r
    else if c == '1' then
      if k / h.numC >= h.numS then Run(r.graph, Some(OversizedMatrix))
      else match AddEdge(r.graph, Name("s", k / h.numC), Name("c", k % h.numC), Black)
        case Fail(e) => Run(r.graph, Some(GraphError(e)))
        case Ok(G') => Run(G', None)
    else if c == '0' then r
    else Run(r.graph, Some(UnexpectedValue))
  }

  /** The cells, in order, each with its running index. */
  function CellsFrom(r: Run, h: Header, cells: string): Run
    requires h.numC > 0
  {
    if cells == [] then r
    else Cell(CellsFrom(r, h, cells[..|cells| - 1]), h, |cells| - 1, cells[|cells| - 1])
  }

  /** change_char_type on each listed character, in order. */
  function ChangeListed(G: Graph, listed: seq<nat>): Graph
  {
    if listed == [] then G
    else ChangeCharType(ChangeListed(G, listed[..|listed| - 1]), Name("c", listed[|listed| - 1]))
  }

  /**
    read_graph(lines, g): the header, the species, the characters, the cells,
    the count check, then change_char_type on the listed characters.  On a
    throw, g keeps what was done before it.
  */
  function Read(G: Graph, lines: seq<string>): Run
  {
    if lines == [] then Run(G, Some(EmptyFile))
    else match HeaderOf(lines[0])
      case Failed(e) => Run(G, Some(e))
      case Parsed(h) =>
        var r1 := HeaderRun(G, h);
        if r1.error.Some? then r1
        else
          var cells := Cells(lines[1..]);
          var r2 := CellsFrom(r1, h, cells);
          if r2.error.Some? then r2
          else if |cells| != h.numS * h.numC then Run(r2.graph, Some(UndersizedMatrix))
          else Run(ChangeListed(r2.graph, h.listed), None)
  }

  //---------------------------------------------------------------------------
  // Reading into an empty graph

  /** Names with the same prefix differ when their numbers do. */
  lemma NameInjective(prefix: string, a: nat, b: nat)
    ensures Name(prefix, a) == Name(prefix, b) ==> a == b
  {
    if Name(prefix, a) == Name(prefix, b) {
      assert NatToString(a) == Name(prefix, a)[|prefix|..];
      assert NatToString(b) == Name(prefix, b)[|prefix|..];
      NatToStringInjective(a, b);
    }
  }

  /** A species name is never a character name. */
  lemma SpeciesNotCharacter(a: nat, b: nat)
    ensures Name("s", a) != Name("c", b)
  {
    assert Name("s", a)[0] == 's' && Name("c", b)[0] == 'c';
  }

  /** One of the names prefix0, ..., prefix(n-1). */
  ghost predicate NamedBelow(prefix: string, n: nat, v: string)
  {
    exists j :: 0 <= j < n && v == Name(prefix, j)
  }

  /** The graph H is G with the names prefix0, ..., prefix(n-1) added with type t. */
  ghost predicate NamesAdded(G: Graph, prefix: string, t: Type, n: nat, H: Graph)
  {
    && H.edges == G.edges
    && (forall v :: v in H.vtype <==> v in G.vtype || NamedBelow(prefix, n, v))
    && (forall v :: v in H.vtype ==> H.vtype[v] == if v in G.vtype then G.vtype[v] else t)
  }

  /**
    Adding fresh names never throws: the n names are added with type t and
    nothing else changes.
  */
  lemma {:induction false} AddNamesFresh(G: Graph, prefix: string, t: Type, n: nat)
    requires forall j :: 0 <= j < n ==> Name(prefix, j) !in G.vtype
    ensures AddNames(Run(G, None), prefix, t, n).error.None?
    ensures NamesAdded(G, prefix, t, n, AddNames(Run(G, None), prefix, t, n).graph)
  {
    if n > 0 {
      AddNamesFresh(G, prefix, t, n - 1);
      var H := AddNames(Run(G, None), prefix, t, n - 1).graph;
      var v := Name(prefix, n - 1);
      forall j | 0 <= j < n - 1 ensures Name(prefix, j) != v {
        NameInjective(prefix, j, n - 1);
      }
      NamesAddedStep(G, prefix, t, n - 1, H);
    }
  }

  lemma NamesAddedStep(G: Graph, prefix: string, t: Type, n: nat, H: Graph)
    requires NamesAdded(G, prefix, t, n, H)
    requires Name(prefix, n) !in G.vtype
    requires forall j :: 0 <= j < n ==> Name(prefix, j) != Name(prefix, n)
    ensures AddVertex(H, Name(prefix, n), t).Ok?
    ensures NamesAdded(G, prefix, t, n + 1, AddVertex(H, Name(prefix, n), t).value)
  {
    var v := Name(prefix, n);
    assert forall w :: NamedBelow(prefix, n + 1, w) <==> NamedBelow(prefix, n, w) || w == v;
  }

  /** Adding names keeps a valid graph valid. */
  lemma {:induction false} AddNamesValid(r: Run, prefix: string, t: Type, n: nat)
    requires Valid(r.graph)
    ensures Valid(AddNames(r, prefix, t, n).graph)
  {
    if n > 0 {
      AddNamesValid(r, prefix, t, n - 1);
      var H := AddNames(r, prefix, t, n - 1).graph;
      AddVertexAdds(H, Name(prefix, n - 1), t);
    }
  }

  /** The empty graph read_graph is normally given. */
  function EmptyGraph(): Graph
  {
    Graph([], map[], map[], 0, 0)
  }

  /** G has exactly the species s0.. and characters c0.. the header asks for. */
  ghost predicate HeaderVertices(h: Header, G: Graph)
  {
    && (forall v :: v in G.vtype <==> NamedBelow("s", h.numS, v) || NamedBelow("c", h.numC, v))
    && (forall v :: NamedBelow("s", h.numS, v) && v in G.vtype ==> G.vtype[v] == Species)
    && (forall v :: NamedBelow("c", h.numC, v) && v in G.vtype ==> G.vtype[v] == Character)
  }

  /** The species s0.. then the characters c0.. added to G. */
  function HeaderRun(G: Graph, h: Header): Run
  {
    AddNames(AddNames(Run(G, None), "s", Species, h.numS), "c", Character, h.numC)
  }

  /** Into the empty graph the species and characters are added without a throw. */
  lemma HeaderRunFresh(h: Header)
    ensures var r := HeaderRun(EmptyGraph(), h);
      && r.error.None? && Valid(r.graph) && r.graph.edges == map[] && HeaderVertices(h, r.graph)
  {
    var E := EmptyGraph();
    assert Valid(E) by {
      assert OfType([], map[], Species) == [] && OfType([], map[], Character) == [];
    }
    AddNamesFresh(E, "s", Species, h.numS);
    var r0 := AddNames(Run(E, None), "s", Species, h.numS);
    forall j | 0 <= j < h.numC ensures Name("c", j) !in r0.graph.vtype {
      forall i | 0 <= i < h.numS ensures Name("c", j) != Name("s", i) {
        SpeciesNotCharacter(i, j);
      }
    }
    AddNamesFresh(r0.graph, "c", Character, h.numC);
    AddNamesValid(Run(E, None), "s", Species, h.numS);
    AddNamesValid(r0, "c", Character, h.numC);
    var r := HeaderRun(E, h);
    forall v | NamedBelow("c", h.numC, v) ensures !NamedBelow("s", h.numS, v) {
      var j :| 0 <= j < h.numC && v == Name("c", j);
      forall i | 0 <= i < h.numS ensures v != Name("s", i) {
        SpeciesNotCharacter(i, j);
      }
    }
  }

  /** A cell that makes read_graph throw: neither '0' nor '1', or a '1' past the last row. */
  predicate BadCell(h: Header, cells: string, k: nat)
    requires h.numC > 0 && k < |cells|
  {
    cells[k] != '0' && (cells[k] != '1' || k / h.numC >= h.numS)
  }

  /** The error a bad cell throws. */
  function CellError(c: char): ReadError
  {
    if c == '1' then OversizedMatrix else UnexpectedValue
  }

  /** After n cells: species i and character j are joined exactly when cell i * numC + j is a '1' already read. */
  ghost predicate MatrixAt(h: Header, cells: string, n: nat, G: Graph)
    requires h.numC > 0 && n <= |cells|
  {
    forall i, j :: 0 <= i < h.numS && 0 <= j < h.numC ==>
      ((Name("s", i), Name("c", j)) in G.edges <==> i * h.numC + j < n && cells[i * h.numC + j] == '1')
  }

  /** What the cells read so far have made of the graph G1 the header built. */
  ghost predicate CellsRead(G1: Graph, h: Header, cells: string, n: nat, G: Graph)
    requires h.numC > 0 && n <= |cells|
  {
    && Valid(G) && Bipartite(G) && G.vertices == G1.vertices && G.vtype == G1.vtype
    && G.numSpecies == G1.numSpecies && G.numCharacters == G1.numCharacters
    && MatrixAt(h, cells, n, G)
    && (forall e :: e in G.edges ==> G.edges[e] == Black)
  }

  /** One cell read into a graph where all earlier cells were good. */
  lemma CellStep(G1: Graph, h: Header, cells: string, n: nat, H: Graph)
    requires h.numC > 0 && n < |cells| && HeaderVertices(h, G1)
    requires CellsRead(G1, h, cells, n, H)
    ensures var r := Cell(Run(H, None), h, n, cells[n]);
      && (r.error.None? <==> !BadCell(h, cells, n))
      && (r.error.None? ==> CellsRead(G1, h, cells, n + 1, r.graph))
      && (r.error.Some? ==> r.error.value == CellError(cells[n]))
  {
    DivMod(n, h.numC);
    if cells[n] == '1' && n / h.numC < h.numS {
      var i0: nat, j0: nat := n / h.numC, n % h.numC;
      var u, w := Name("s", i0), Name("c", j0);
      assert NamedBelow("s", h.numS, u) && NamedBelow("c", h.numC, w);
      assert i0 * h.numC + j0 == n;
      AddEdgeAdds(H, u, w, Black);
      var H' := AddEdge(H, u, w, Black).value;
      MatrixStep(h, cells, n, H, H');
      BlackStep(H, H', u, w);
      BipartiteStep(H, H', u, w);
    } else if cells[n] == '0' {
      MatrixZero(h, cells, n, H);
    }
  }

  /** A '1' at position n adds exactly the pair of species n / numC and character n % numC. */
  lemma MatrixStep(h: Header, cells: string, n: nat, H: Graph, H': Graph)
    requires h.numC > 0 && n < |cells| && cells[n] == '1' && n / h.numC < h.numS
    requires MatrixAt(h, cells, n, H)
    requires H'.edges.Keys == H.edges.Keys + {(Name("s", n / h.numC), Name("c", n % h.numC)), (Name("c", n % h.numC), Name("s", n / h.numC))}
    ensures MatrixAt(h, cells, n + 1, H')
  {
    DivMod(n, h.numC);
    var i0: nat, j0: nat := n / h.numC, n % h.numC;
    forall i, j | 0 <= i < h.numS && 0 <= j < h.numC
      ensures (Name("s", i), Name("c", j)) in H'.edges <==> i * h.numC + j < n + 1 && cells[i * h.numC + j] == '1'
    {
      NameInjective("s", i, i0);
      NameInjective("c", j, j0);
      SpeciesNotCharacter(i, j0);
      if i * h.numC + j == n {
        ModUnique(n, i, j, h.numC);
      }
      if i == i0 && j == j0 {
        assert i * h.numC + j == n;
      }
    }
  }

  /** A '0' adds nothing. */
  lemma MatrixZero(h: Header, cells: string, n: nat, H: Graph)
    requires h.numC > 0 && n < |cells| && cells[n] == '0'
    requires MatrixAt(h, cells, n, H)
    ensures MatrixAt(h, cells, n + 1, H)
  {
  }

  lemma BlackStep(H: Graph, H': Graph, u: string, w: string)
    requires forall e :: e in H.edges ==> H.edges[e] == Black
    requires H'.edges.Keys == H.edges.Keys + {(u, w), (w, u)}
    requires H'.edges[(u, w)] == Black && H'.edges[(w, u)] == Black
    requires forall e :: e in H.edges ==> H'.edges[e] == H.edges[e]
    ensures forall e :: e in H'.edges ==> H'.edges[e] == Black
  {
  }

  lemma BipartiteStep(H: Graph, H': Graph, u: string, w: string)
    requires Bipartite(H) && H'.vtype == H.vtype
    requires H'.edges.Keys == H.edges.Keys + {(u, w), (w, u)}
    requires u in H.vtype && w in H.vtype && H.vtype[u] != H.vtype[w]
    ensures Bipartite(H')
  {
  }

  lemma CellsFromStep(r: Run, h: Header, cells: string, n: nat)
    requires h.numC > 0 && n < |cells|
    ensures CellsFrom(r, h, cells[..n + 1]) == Cell(CellsFrom(r, h, cells[..n]), h, n, cells[n])
  {
    assert cells[..n + 1][..n] == cells[..n];
  }

  /** e is the error of the first bad cell among the first n. */
  ghost predicate FirstBad(h: Header, cells: string, n: nat, e: ReadError)
    requires h.numC > 0 && n <= |cells|
  {
    exists k :: 0 <= k < n && BadCell(h, cells, k) && (forall j :: 0 <= j < k ==> !BadCell(h, cells, j)) &&
      e == CellError(cells[k])
  }

  /** The first bad cell stays the first one when more cells are read. */
  lemma FirstBadKept(h: Header, cells: string, n: nat, e: ReadError)
    requires h.numC > 0 && n < |cells| && FirstBad(h, cells, n, e)
    ensures FirstBad(h, cells, n + 1, e)
    ensures !forall k :: 0 <= k < n + 1 ==> !BadCell(h, cells, k)
  {
  }

  /** A bad cell after good ones is the first bad cell. */
  lemma FirstBadNew(h: Header, cells: string, n: nat)
    requires h.numC > 0 && n < |cells| && BadCell(h, cells, n)
    requires forall k :: 0 <= k < n ==> !BadCell(h, cells, k)
    ensures FirstBad(h, cells, n + 1, CellError(cells[n]))
  {
  }

  /**
    What reading the first n cells left in r: no throw exactly when none of
    them is bad, and then the '1' cells are the black edges; otherwise the
    error is that of the first bad cell.
  */
  ghost predicate CellsOutcome(G1: Graph, h: Header, cells: string, n: nat, r: Run)
    requires h.numC > 0 && n <= |cells|
  {
    && (r.error.None? <==> forall k :: 0 <= k < n ==> !BadCell(h, cells, k))
    && (r.error.None? ==> CellsRead(G1, h, cells, n, r.graph))
    && (r.error.Some? ==> FirstBad(h, cells, n, r.error.value))
  }

  lemma CellsOutcomeZero(G1: Graph, h: Header, cells: string)
    requires h.numC > 0
    requires Valid(G1) && G1.edges == map[]
    ensures CellsOutcome(G1, h, cells, 0, Run(G1, None))
  {
  }

  lemma CellsOutcomeStep(G1: Graph, h: Header, cells: string, n: nat, r: Run)
    requires h.numC > 0 && n < |cells| && HeaderVertices(h, G1)
    requires CellsOutcome(G1, h, cells, n, r)
    ensures CellsOutcome(G1, h, cells, n + 1, Cell(r, h, n, cells[n]))
  {
    if r.error.None? {
      CellStep(G1, h, cells, n, r.graph);
      if BadCell(h, cells, n) {
        FirstBadNew(h, cells, n);
      }
    } else {
      FirstBadKept(h, cells, n, r.error.value);
    }
  }

  /** Reading the first n cells into the graph the header built. */
  lemma {:induction false} CellsFresh(G1: Graph, h: Header, cells: string, n: nat)
    requires h.numC > 0 && n <= |cells|
    requires Valid(G1) && G1.edges == map[] && HeaderVertices(h, G1)
    ensures CellsOutcome(G1, h, cells, n, CellsFrom(Run(G1, None), h, cells[..n]))
  {
    if n == 0 {
      assert cells[..0] == [];
      CellsOutcomeZero(G1, h, cells);
    } else {
      CellsFresh(G1, h, cells, n - 1);
      CellsFromStep(Run(G1, None), h, cells, n - 1);
      CellsOutcomeStep(G1, h, cells, n - 1, CellsFrom(Run(G1, None), h, cells[..n - 1]));
    }
  }

  /** change_char_type on the listed characters keeps the vertices and validity. */
  lemma {:induction false} ChangeListedKeeps(G: Graph, listed: seq<nat>)
    requires Valid(G) && forall k :: 0 <= k < |listed| ==> Name("c", listed[k]) in G.vtype
    ensures var G' := ChangeListed(G, listed);
      && Valid(G') && G'.vertices == G.vertices && G'.vtype == G.vtype
      && G'.numSpecies == G.numSpecies && G'.numCharacters == G.numCharacters
  {
    if listed != [] {
      var m := |listed| - 1;
      ChangeListedKeeps(G, listed[..m]);
      ChangeCharTypeSwaps(ChangeListed(G, listed[..m]), Name("c", listed[m]));
    }
  }

  /** change_char_type on the listed characters keeps every character's edges of one colour. */
  lemma {:induction false} ChangeListedUniform(G: Graph, listed: seq<nat>)
    requires Valid(G) && UniformColours(G) && forall k :: 0 <= k < |listed| ==> Name("c", listed[k]) in G.vtype
    ensures UniformColours(ChangeListed(G, listed))
  {
    if listed != [] {
      var m := |listed| - 1;
      ChangeListedUniform(G, listed[..m]);
      ChangeListedKeeps(G, listed[..m]);
      ChangeCharTypeKeepsUniform(ChangeListed(G, listed[..m]), Name("c", listed[m]));
    }
  }

  /**
    A graph read_graph builds satisfies the colour invariant: the cells give
    black edges only, and change_char_type keeps the invariant.
  */
  lemma ReadUniform(lines: seq<string>)
    ensures Read(EmptyGraph(), lines).error.None? ==> UniformColours(Read(EmptyGraph(), lines).graph)
  {
    if lines != [] && HeaderOf(lines[0]).Parsed? {
      var h := HeaderOf(lines[0]).value;
      var cells := Cells(lines[1..]);
      HeaderRunFresh(h);
      var r1 := HeaderRun(EmptyGraph(), h);
      CellsFresh(r1.graph, h, cells, |cells|);
      assert cells[..|cells|] == cells;
      var r2 := CellsFrom(r1, h, cells);
      if r2.error.None? && |cells| == h.numS * h.numC {
        var G2 := r2.graph;
        assert UniformColours(G2) by {
          forall c | c in G2.vtype && G2.vtype[c] == Character ensures AllIncident(G2, c, Black) {
          }
        }
        forall k | 0 <= k < |h.listed| ensures Name("c", h.listed[k]) in G2.vtype {
          assert NamedBelow("c", h.numC, Name("c", h.listed[k]));
        }
        ChangeListedUniform(G2, h.listed);
      }
    }
  }

  /**
    What read_graph makes of a parsed header h and the cells: it succeeds
    exactly when no cell is bad and there are numS x numC of them; then the
    graph is the matrix of the cells, black edges from species to characters,
    with change_char_type applied to the listed characters; otherwise the
    error is that of the first bad cell, or the matrix is undersized.
  */
  ghost predicate ReadOutcome(h: Header, cells: string, r: Run)
    requires h.numC > 0
  {
    var G1 := HeaderRun(EmptyGraph(), h).graph;
    && (r.error.None? <==> (forall k :: 0 <= k < |cells| ==> !BadCell(h, cells, k)) && |cells| == h.numS * h.numC)
    && (r.error.None? ==>
          && Valid(r.graph) && r.graph.vtype == G1.vtype && HeaderVertices(h, r.graph)
          && (exists G2 :: CellsRead(G1, h, cells, |cells|, G2) && r.graph == ChangeListed(G2, h.listed))
          && (h.listed == [] ==> MatrixAt(h, cells, |cells|, r.graph)))
    && (r.error.Some? ==>
          || FirstBad(h, cells, |cells|, r.error.value)
          || ((forall k :: 0 <= k < |cells| ==> !BadCell(h, cells, k)) && r.error == Some(UndersizedMatrix)))
  }

  /** read_graph into an empty graph. */
  lemma ReadMeans(lines: seq<string>)
    ensures lines == [] ==> Read(EmptyGraph(), lines).error == Some(EmptyFile)
    ensures lines != [] && HeaderOf(lines[0]).Failed? ==>
      Read(EmptyGraph(), lines).error == Some(HeaderOf(lines[0]).error)
    ensures lines != [] && HeaderOf(lines[0]).Parsed? ==>
      ReadOutcome(HeaderOf(lines[0]).value, Cells(lines[1..]), Read(EmptyGraph(), lines))
  {
    if lines != [] && HeaderOf(lines[0]).Parsed? {
      var h := HeaderOf(lines[0]).value;
      var cells := Cells(lines[1..]);
      HeaderRunFresh(h);
      var r1 := HeaderRun(EmptyGraph(), h);
      CellsFresh(r1.graph, h, cells, |cells|);
      assert cells[..|cells|] == cells;
      var r2 := CellsFrom(r1, h, cells);
      if r2.error.None? && |cells| == h.numS * h.numC {
        forall k | 0 <= k < |h.listed| ensures Name("c", h.listed[k]) in r2.graph.vtype {
          assert NamedBelow("c", h.numC, Name("c", h.listed[k]));
        }
        ChangeListedKeeps(r2.graph, h.listed);
      }
    }
  }

  //---------------------------------------------------------------------------
  // Reading step by step

  lemma NonBlankStep(s: string, c: nat)
    requires c < |s|
    ensures NonBlank(s[..c + 1]) == NonBlank(s[..c]) + (if IsSpace(s[c]) then [] else [s[c]])
  {
    assert s[..c + 1][..c] == s[..c];
  }

  lemma {:induction false} NonBlankAppend(a: string, b: string)
    ensures NonBlank(a + b) == NonBlank(a) + NonBlank(b)
  {
    if b == [] {
      assert a + b == a;
    } else {
      var m := |b| - 1;
      NonBlankAppend(a, b[..m]);
      AppendFront(a, b);
      Associative(NonBlank(a), NonBlank(b[..m]), if IsSpace(b[m]) then [] else [b[m]]);
    }
  }

  lemma {:induction false} CellsAppend(a: seq<string>, b: seq<string>)
    ensures Cells(a + b) == Cells(a) + Cells(b)
  {
    if b == [] {
      assert a + b == a;
    } else {
      var m := |b| - 1;
      CellsAppend(a, b[..m]);
      AppendFront(a, b);
      assert Cells(a + b) == Cells(a + b[..m]) + NonBlank(b[m]);
      assert Cells(b) == Cells(b[..m]) + NonBlank(b[m]);
      Associative(Cells(a), Cells(b[..m]), NonBlank(b[m]));
    }
  }

  lemma CellsSnoc(lines: seq<string>, i: nat)
    requires 1 <= i < |lines|
    ensures Cells(lines[1..i + 1]) == Cells(lines[1..i]) + NonBlank(lines[i])
  {
    assert lines[1..i + 1][..i - 1] == lines[1..i];
  }

  /** The cells so far, one more character of the line read. */
  lemma LineStep(done0: string, line: string, c: nat, done: string)
    requires c <= |line| && done == done0 + NonBlank(line[..c])
    ensures c == 0 ==> done0 + NonBlank(line[..0]) == done0
    ensures c < |line| ==>
      done0 + NonBlank(line[..c + 1]) == done + (if IsSpace(line[c]) then [] else [line[c]])
  {
    assert line[..0] == [];
    if c < |line| {
      NonBlankStep(line, c);
    }
  }

  /** A throw at character c of the line is where the reading of the line ends. */
  lemma LineStop(r: Run, h: Header, done0: string, line: string, c: nat)
    requires h.numC > 0 && c <= |line|
    requires CellsFrom(r, h, done0 + NonBlank(line[..c])).error.Some?
    ensures CellsFrom(r, h, done0 + NonBlank(line)) == CellsFrom(r, h, done0 + NonBlank(line[..c]))
  {
    var done := done0 + NonBlank(line[..c]);
    assert line == line[..c] + line[c..];
    NonBlankAppend(line[..c], line[c..]);
    assert (done0 + NonBlank(line))[..|done|] == done;
    CellsFromSticky(r, h, done0 + NonBlank(line), |done|);
  }

  /** A throw in line i is where the reading of the cells ends. */
  lemma CellsLinesStop(r: Run, h: Header, lines: seq<string>, i: nat)
    requires h.numC > 0 && 1 <= i < |lines|
    requires CellsFrom(r, h, Cells(lines[1..i + 1])).error.Some?
    ensures CellsFrom(r, h, Cells(lines[1..])) == CellsFrom(r, h, Cells(lines[1..i + 1]))
  {
    var done := Cells(lines[1..i + 1]);
    assert lines[1..] == lines[1..i + 1] + lines[i + 1..];
    CellsAppend(lines[1..i + 1], lines[i + 1..]);
    assert Cells(lines[1..])[..|done|] == done;
    CellsFromSticky(r, h, Cells(lines[1..]), |done|);
  }

  lemma CellsFromSnoc(r: Run, h: Header, cs: string, c: char)
    requires h.numC > 0
    ensures CellsFrom(r, h, cs + [c]) == Cell(CellsFrom(r, h, cs), h, |cs|, c)
  {
    assert (cs + [c])[..|cs|] == cs;
  }

  /** Once a cell has thrown, the later cells are not read. */
  lemma {:induction false} CellsFromSticky(r: Run, h: Header, cs: string, n: nat)
    requires h.numC > 0 && n <= |cs| && CellsFrom(r, h, cs[..n]).error.Some?
    ensures CellsFrom(r, h, cs) == CellsFrom(r, h, cs[..n])
  {
    if n == |cs| {
      assert cs[..n] == cs;
    } else {
      var m := |cs| - 1;
      assert cs[..m][..n] == cs[..n];
      CellsFromSticky(r, h, cs[..m], n);
    }
  }

  /** Once a vertex could not be added, the later ones are not tried. */
  lemma {:induction false} AddNamesSticky(r: Run, prefix: string, t: Type, m: nat, n: nat)
    requires m <= n && AddNames(r, prefix, t, m).error.Some?
    ensures AddNames(r, prefix, t, n) == AddNames(r, prefix, t, m)
  {
    if m < n {
      AddNamesSticky(r, prefix, t, m, n - 1);
    }
  }

  /** Adding names keeps the names there were and, without a throw, has them all. */
  lemma {:induction false} AddNamesHas(r: Run, prefix: string, t: Type, n: nat)
    ensures r.graph.vtype.Keys <= AddNames(r, prefix, t, n).graph.vtype.Keys
    ensures AddNames(r, prefix, t, n).error.None? ==>
      forall j :: 0 <= j < n ==> Name(prefix, j) in AddNames(r, prefix, t, n).graph.vtype
  {
    if n > 0 {
      AddNamesHas(r, prefix, t, n - 1);
    }
  }

  /** Reading cells keeps a valid graph valid and adds no vertex. */
  lemma {:induction false} CellsFromKeeps(r: Run, h: Header, cs: string)
    requires h.numC > 0 && Valid(r.graph)
    ensures Valid(CellsFrom(r, h, cs).graph) && CellsFrom(r, h, cs).graph.vtype == r.graph.vtype
  {
    if cs != [] {
      var m := |cs| - 1;
      CellsFromKeeps(r, h, cs[..m]);
      var H := CellsFrom(r, h, cs[..m]).graph;
      DivMod(m, h.numC);
      var i0: nat, j0: nat := m / h.numC, m % h.numC;
      if cs[m] == '1' && i0 < h.numS {
        AddEdgeAdds(H, Name("s", i0), Name("c", j0), Black);
      }
    }
  }

  /**
    The first line, read number by number: the species count, the character
    count, then the characters to make active, each checked as it is read.
  */
  method ParseHeader(line: string) returns (p: Parsed<Header>)
    ensures p == HeaderOf(line)
  {
    var ns := HeaderNumbers(line);
    var cont := 0;
    var numS, numC := 0, 0;
    var listed: seq<nat> := [];
    var i := 0;
    while i < |ns|
      invariant 0 <= i <= |ns|
      invariant cont == if i < 2 then i else 2
      invariant i >= 1 ==> numS == ns[0]
      invariant i < 2 ==> listed == []
      invariant i >= 2 ==> numC == ns[1] && listed == ns[2..i]
      invariant forall k :: 2 <= k < i ==> ns[k] < ns[1]
    {
      if cont == 0 {
        numS := ns[i];
        cont := cont + 1;
      } else if cont == 1 {
        numC := ns[i];
        cont := cont + 1;
      } else {
        if ns[i] >= numC {
          assert 2 <= i < |ns| && ns[i] >= ns[1];
          return Failed(InexistentCharacter);
        }
        assert ns[2..i + 1] == ns[2..i] + [ns[i]];
        listed := listed + [ns[i]];
      }
      i := i + 1;
    }
    if cont < 2 {
      return Failed(HeaderIncomplete);
    }
    assert ns[2..i] == ns[2..];
    if numS == 0 || numC == 0 {
      return Failed(BadlyFormattedLine0);
    }
    p := Parsed(Header(numS, numC, listed));
  }

  /**
    The vertices prefix0, ..., prefix(n-1) of type t added to g one by one,
    stopping at the first that add_vertex refuses.
  */
  method AddNumbered(g: RBGraph, prefix: string, t: Type, n: nat) returns (error: Option<ReadError>)
    modifies g
    ensures Run(g.Value(), error) == AddNames(Run(old(g.Value()), None), prefix, t, n)
  {
    ghost var r0 := Run(g.Value(), None);
    var j := 0;
    while j < n
      invariant 0 <= j <= n
      invariant Run(g.Value(), None) == AddNames(r0, prefix, t, j)
    {
      var out := g.AddVertex(Name(prefix, j), t);
      if out.Thrown? {
        AddNamesSticky(r0, prefix, t, j + 1, n);
        return Some(GraphError(out.reason));
      }
      j := j + 1;
    }
    error := None;
  }

  /** The species s0.. and then the characters c0.. the first line asks for. */
  method AddHeaderVertices(g: RBGraph, h: Header) returns (error: Option<ReadError>)
    modifies g
    ensures Run(g.Value(), error) == HeaderRun(old(g.Value()), h)
  {
    error := AddNumbered(g, "s", Species, h.numS);
    if error.Some? {
      AddNamesSticky(Run(g.Value(), error), "c", Character, 0, h.numC);
      return;
    }
    error := AddNumbered(g, "c", Character, h.numC);
  }

  /**
    The matrix lines after the first, one after the other.  Returns the number
    of cells read.
  */
  method ReadCells(g: RBGraph, h: Header, lines: seq<string>) returns (index: nat, error: Option<ReadError>)
    requires h.numC > 0 && lines != []
    modifies g
    ensures Run(g.Value(), error) == CellsFrom(Run(old(g.Value()), None), h, Cells(lines[1..]))
    ensures error.None? ==> index == |Cells(lines[1..])|
  {
    ghost var r1 := Run(g.Value(), None);
    index := 0;
    var i := 1;
    while i < |lines|
      invariant 1 <= i <= |lines|
      invariant index == |Cells(lines[1..i])|
      invariant Run(g.Value(), None) == CellsFrom(r1, h, Cells(lines[1..i]))
    {
      CellsSnoc(lines, i);
      index, error := ReadLine(g, h, lines[i], index, r1, Cells(lines[1..i]));
      if error.Some? {
        CellsLinesStop(r1, h, lines, i);
        return;
      }
      i := i + 1;
    }
    assert lines[1..i] == lines[1..];
    error := None;
  }

  /**
    One line of the matrix, character by character: blanks are skipped, every
    other character is a cell with the next running index.  The cells before
    it are done0, and k counts them.
  */
  method ReadLine(g: RBGraph, h: Header, line: string, k: nat, ghost r1: Run, ghost done0: string)
    returns (index: nat, error: Option<ReadError>)
    requires h.numC > 0 && k == |done0| && Run(g.Value(), None) == CellsFrom(r1, h, done0)
    modifies g
    ensures Run(g.Value(), error) == CellsFrom(r1, h, done0 + NonBlank(line))
    ensures error.None? ==> index == |done0 + NonBlank(line)|
  {
    index := k;
    ghost var done := done0;
    var c := 0;
    LineStep(done0, line, 0, done);
    while c < |line|
      invariant 0 <= c <= |line|
      invariant done == done0 + NonBlank(line[..c])
      invariant index == |done|
      invariant Run(g.Value(), None) == CellsFrom(r1, h, done)
    {
      LineStep(done0, line, c, done);
      if !IsSpace(line[c]) {
        CellsFromSnoc(r1, h, done, line[c]);
        error := ReadCell(g, h, index, line[c]);
        if error.Some? {
          LineStop(r1, h, done0, line, c + 1);
          return;
        }
        done := done + [line[c]];
        index := index + 1;
      }
      c := c + 1;
    }
    assert line[..c] == line;
    error := None;
  }

  /** One non-blank character at running index k. */
  method ReadCell(g: RBGraph, h: Header, k: nat, c: char) returns (error: Option<ReadError>)
    requires h.numC > 0
    modifies g
    ensures Run(g.Value(), error) == Cell(Run(old(g.Value()), None), h, k, c)
  {
    DivMod(k, h.numC);
    if c == '1' {
      var i0: nat, j0: nat := k / h.numC, k % h.numC;
      if i0 >= h.numS {
        return Some(OversizedMatrix);
      }
      var out := g.AddBlackEdge(Name("s", i0), Name("c", j0));
      if out.Thrown? {
        return Some(GraphError(out.reason));
      }
      error := None;
    } else if c == '0' {
      error := None;
    } else {
      error := Some(UnexpectedValue);
    }
  }

  /** change_char_type on each listed character, in order. */
  method ChangeListedTypes(g: RBGraph, listed: seq<nat>)
    requires g.Valid() && forall k :: 0 <= k < |listed| ==> Name("c", listed[k]) in g.vtype
    modifies g
    ensures g.Value() == ChangeListed(old(g.Value()), listed)
  {
    ghost var G2 := g.Value();
    var k := 0;
    assert listed[..0] == [];
    while k < |listed|
      invariant 0 <= k <= |listed|
      invariant g.Value() == ChangeListed(G2, listed[..k])
      invariant g.Valid() && g.vtype == G2.vtype
    {
      g.ChangeCharType(Name("c", listed[k]));
      TakeTake(listed, k, k + 1);
      ChangeCharTypeSwaps(ChangeListed(G2, listed[..k]), Name("c", listed[k]));
      k := k + 1;
    }
    assert listed[..k] == listed;
  }

  /**
    read_graph(lines, g): the first line, the vertices, the cells, the count
    check, then the listed characters' types are changed.  On a throw g keeps
    what was done before it.
  */
  method ReadGraph(g: RBGraph, lines: seq<string>) returns (error: Option<ReadError>)
    requires g.Valid()
    modifies g
    ensures g.Value() == Read(old(g.Value()), lines).graph
    ensures error == Read(old(g.Value()), lines).error
  {
    if lines == [] {
      return Some(EmptyFile);
    }
    var p := ParseHeader(lines[0]);
    if p.Failed? {
      return Some(p.error);
    }
    var h := p.value;
    ghost var G0 := g.Value();
    error := AddHeaderVertices(g, h);
    if error.Some? {
      return;
    }
    ghost var r1 := Run(g.Value(), None);
    var index;
    index, error := ReadCells(g, h, lines);
    if error.Some? {
      return;
    }
    if index != h.numS * h.numC {
      return Some(UndersizedMatrix);
    }
    AddNamesValid(Run(G0, None), "s", Species, h.numS);
    AddNamesValid(AddNames(Run(G0, None), "s", Species, h.numS), "c", Character, h.numC);
    AddNamesHas(AddNames(Run(G0, None), "s", Species, h.numS), "c", Character, h.numC);
    CellsFromKeeps(r1, h, Cells(lines[1..]));
    forall k | 0 <= k < |h.listed| ensures Name("c", h.listed[k]) in g.vtype {
      assert h.listed[k] < h.numC;
    }
    ChangeListedTypes(g, h.listed);
  }
}
