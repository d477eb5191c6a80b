/**
 * `tgf2cyto` (src/utils/io.ts): the reader of the plain-text graph format. The text is cut
 * into trimmed lines, comment lines starting with `#` are dropped, and each line is cut into
 * its runs of word characters. Lines of one or two tokens are nodes, lines of three tokens
 * are edges with a capacity, and a reverse edge of capacity 0 is appended for the edges.
 */
module Tgf {
  import opened Wrappers
  import opened Seqs

  // ----- Characters -----

  /** The characters `String.prototype.trim` removes: white space and line terminators. */
  predicate IsSpace(c: char) {
    || c == ' ' || c == '\t' || c == '\n' || c == '\r' || c == '\U{000B}' || c == '\U{000C}'
    || c == '\U{00A0}' || c == '\U{1680}' || ('\U{2000}' <= c <= '\U{200A}')
    || c == '\U{2028}' || c == '\U{2029}' || c == '\U{202F}' || c == '\U{205F}'
    || c == '\U{3000}' || c == '\U{FEFF}'
  }

  /** The word characters `[A-Za-z0-9_]`; every other character matches `\W`. */
  predicate IsWordChar(c: char) {
    ('a' <= c <= 'z') || ('A' <= c <= 'Z') || ('0' <= c <= '9') || c == '_'
  }

  predicate IsDigit(c: char) {
    '0' <= c <= '9'
  }

  // ----- Trimming -----

  /** The suffix left once the leading white space is removed. */
  function TrimStart(s: string): (r: string)
    ensures |r| <= |s| && r == s[|s| - |r|..]
    ensures forall k :: 0 <= k < |s| - |r| ==> IsSpace(s[k])
    ensures r == [] || !IsSpace(r[0])
  {
    if s != [] && IsSpace(s[0]) then TrimStart(s[1..]) else s
  }

  /** The prefix left once the trailing white space is removed. */
  function TrimEnd(s: string): (r: string)
    ensures |r| <= |s| && r == s[..|r|]
    ensures forall k :: |r| <= k < |s| ==> IsSpace(s[k])
    ensures r == [] || !IsSpace(r[|r| - 1])
  {
    if s != [] && IsSpace(s[|s| - 1]) then TrimEnd(s[..|s| - 1]) else s
  }

  /** `trim`: the text with the white space at both ends removed. */
  function Trim(s: string): (r: string)
    ensures r == [] || (!IsSpace(r[0]) && !IsSpace(r[|r| - 1]))
  {
    TrimEnd(TrimStart(s))
  }

  predicate AllSpace(s: string) {
    forall k :: 0 <= k < |s| ==> IsSpace(s[k])
  }

  /** Trimming undoes padding with white space on either side, and nothing more. */
  lemma {:induction false} TrimPadded(a: string, m: string, b: string)
    requires AllSpace(a) && AllSpace(b)
    requires m == [] || (!IsSpace(m[0]) && !IsSpace(m[|m| - 1]))
    ensures Trim(a + m + b) == m
  {
    if m == [] {
      assert a + m + b == a + b;
      AllSpaceTrimsAway(a + b);
    } else {
      assert a + m + b == a + (m + b);
      TrimStartPadded(a, m + b);
      assert (m + b)[0] == m[0];
      TrimEndPadded(m, b);
    }
  }

  lemma {:induction false} AllSpaceTrimsAway(s: string)
    requires AllSpace(s)
    ensures TrimStart(s) == [] && Trim(s) == []
    decreases |s|
  {
    if s != [] {
      AllSpaceTrimsAway(s[1..]);
    }
  }

  lemma {:induction false} TrimStartPadded(a: string, t: string)
    requires AllSpace(a)
    ensures TrimStart(a + t) == TrimStart(t)
    decreases |a|
  {
    if a != [] {
      assert (a + t)[0] == a[0] && (a + t)[1..] == a[1..] + t;
      assert TrimStart(a + t) == TrimStart(a[1..] + t);
      TrimStartPadded(a[1..], t);
    } else {
      assert a + t == t;
    }
  }

  lemma {:induction false} TrimEndPadded(m: string, b: string)
    requires AllSpace(b) && (m == [] || !IsSpace(m[|m| - 1]))
    ensures TrimEnd(m + b) == m
    decreases |b|
  {
    if b == [] {
      assert m + b == m;
    } else {
      assert (m + b)[..|m + b| - 1] == m + b[..|b| - 1];
      TrimEndPadded(m, b[..|b| - 1]);
    }
  }

  // ----- Splitting -----

  /**
   * `split` at every character `isSep` accepts: the pieces between them, in order, empty
   * pieces included; there is always at least one piece.
   */
  function Split(s: string, isSep: char -> bool): (r: seq<string>)
    ensures |r| > 0
    ensures forall i, c :: 0 <= i < |r| && c in r[i] ==> !isSep(c)
    decreases |s|
  {
    if s == [] then [""]
    else
      var rest := Split(s[1..], isSep);
      if isSep(s[0]) then [""] + rest else [[s[0]] + rest[0]] + rest[1..]
  }

  /** `join` with a one-character separator. */
  function Join(parts: seq<string>, sep: char): string
    decreases |parts|
  {
    if parts == [] then ""
    else if |parts| == 1 then parts[0]
    else parts[0] + [sep] + Join(parts[1..], sep)
  }

  lemma {:induction false} JoinCons(c: char, parts: seq<string>, sep: char)
    requires |parts| > 0
    ensures Join([[c] + parts[0]] + parts[1..], sep) == [c] + Join(parts, sep)
  {
    var joined := [[c] + parts[0]] + parts[1..];
    assert joined[0] == [c] + parts[0] && joined[1..] == parts[1..];
  }

  /** Joining the pieces with the separator gives back the text. */
  lemma {:induction false} JoinSplit(s: string, sep: char, isSep: char -> bool)
    requires forall c :: isSep(c) <==> c == sep
    ensures Join(Split(s, isSep), sep) == s
    decreases |s|
  {
    if s != [] {
      var rest := Split(s[1..], isSep);
      JoinSplit(s[1..], sep, isSep);
      if isSep(s[0]) {
        var parts := [""] + rest;
        assert parts[1..] == rest;
      } else {
        JoinCons(s[0], rest, sep);
      }
      assert s == [s[0]] + s[1..];
    }
  }

  /** Splitting a text that starts with a separator-free word. */
  lemma {:induction false} SplitWord(w: string, t: string, isSep: char -> bool)
    requires forall c :: c in w ==> !isSep(c)
    ensures Split(w + t, isSep) == [w + Split(t, isSep)[0]] + Split(t, isSep)[1..]
    decreases |w|
  {
    if w == [] {
      var r := Split(t, isSep);
      assert w + t == t && w + r[0] == r[0];
      assert r == [r[0]] + r[1..];
    } else {
      assert (w + t)[1..] == w[1..] + t;
      SplitWord(w[1..], t, isSep);
      assert (w + t)[0] == w[0];
      assert [w[0]] + (w[1..] + Split(t, isSep)[0]) == w + Split(t, isSep)[0];
    }
  }

  /** Splitting pieces joined with a separator gives back the pieces, when none holds a separator. */
  lemma {:induction false} SplitJoin(parts: seq<string>, sep: char, isSep: char -> bool)
    requires |parts| > 0 && isSep(sep)
    requires forall i, c :: 0 <= i < |parts| && c in parts[i] ==> !isSep(c)
    ensures Split(Join(parts, sep), isSep) == parts
    decreases |parts|
  {
    if |parts| == 1 {
      SplitWord(parts[0], "", isSep);
      assert parts[0] + "" == parts[0];
      assert parts == [parts[0]];
    } else {
      var rest := Join(parts[1..], sep);
      SplitJoin(parts[1..], sep, isSep);
      assert ([sep] + rest)[1..] == rest;
      assert Split([sep] + rest, isSep) == [""] + parts[1..];
      assert parts[0] + [sep] + rest == parts[0] + ([sep] + rest);
      SplitWord(parts[0], [sep] + rest, isSep);
      assert parts[0] + "" == parts[0];
      assert parts == [parts[0]] + parts[1..];
    }
  }

  // ----- Lines and tokens -----

  predicate IsNewline(c: char) {
    c == '\n'
  }

  predicate IsComment(line: string) {
    |line| > 0 && line[0] == '#'
  }

  /** The trimmed lines of the text, without the comment lines (lines 2-5). */
  function Lines(tgf: string): seq<string> {
    var pieces := Split(tgf, IsNewline);
    Filter(seq(|pieces|, i requires 0 <= i < |pieces| => Trim(pieces[i])), IsCode)
  }

  predicate IsCode(line: string) {
    !IsComment(line)
  }

  /** Every line kept is trimmed and is not a comment. */
  lemma {:induction false} LinesTrimmed(tgf: string)
    ensures forall i :: 0 <= i < |Lines(tgf)| ==> !IsComment(Lines(tgf)[i]) && Trim(Lines(tgf)[i]) == Lines(tgf)[i]
  {
    var pieces := Split(tgf, IsNewline);
    var trimmed := seq(|pieces|, i requires 0 <= i < |pieces| => Trim(pieces[i]));
    var lines := Filter(trimmed, IsCode);
    forall i | 0 <= i < |lines| ensures !IsComment(lines[i]) && Trim(lines[i]) == lines[i] {
      assert lines[i] in trimmed;
      var j :| 0 <= j < |trimmed| && trimmed[j] == lines[i];
      TrimTwice(pieces[j]);
    }
  }

  /** Trimming twice trims nothing more. */
  lemma {:induction false} TrimTwice(s: string)
    ensures Trim(Trim(s)) == Trim(s)
  {
    var m := Trim(s);
    assert TrimStart(m) == m;
    assert TrimEnd(m) == m;
  }

  predicate NonEmpty(t: string) {
    |t| > 0
  }

  predicate IsSeparator(c: char) {
    !IsWordChar(c)
  }

  /** The tokens of a line: its non-empty pieces between non-word characters (lines 7-9). */
  function Tokens(line: string): (r: seq<string>)
    ensures forall i :: 0 <= i < |r| ==> |r[i]| > 0 && forall c :: c in r[i] ==> IsWordChar(c)
  {
    var pieces := Split(line, IsSeparator);
    var r := Filter(pieces, NonEmpty);
    WordPieces(pieces, r);
    r
  }

  lemma {:induction false} WordPieces(pieces: seq<string>, r: seq<string>)
    requires forall i, c :: 0 <= i < |pieces| && c in pieces[i] ==> !IsSeparator(c)
    requires forall i :: 0 <= i < |r| ==> r[i] in pieces
    ensures forall i, c :: 0 <= i < |r| && c in r[i] ==> IsWordChar(c)
  {
    forall i, c | 0 <= i < |r| && c in r[i] ensures IsWordChar(c) {
      var j :| 0 <= j < |pieces| && pieces[j] == r[i];
      assert c in pieces[j];
      assert !IsSeparator(c);
    }
  }

  /** Tokenising words joined by spaces gives back the words. */
  lemma {:induction false} TokensOfJoin(words: seq<string>)
    requires forall i :: 0 <= i < |words| ==> |words[i]| > 0 && forall c :: c in words[i] ==> IsWordChar(c)
    ensures Tokens(Join(words, ' ')) == words
  {
    if words == [] {
      assert Split("", IsSeparator) == [""];
      assert Filter([""], NonEmpty) == [];
    } else {
      SplitJoin(words, ' ', IsSeparator);
      FilterAllPass(words, NonEmpty);
    }
  }

  /** The concatenation of the pieces. */
  function Concat(parts: seq<string>): string
    decreases |parts|
  {
    if parts == [] then "" else parts[0] + Concat(parts[1..])
  }

  /** The pieces of a split, put back together, are the text without its separators. */
  lemma {:induction false} ConcatSplit(s: string, isSep: char -> bool, isKept: char -> bool)
    requires forall c :: isKept(c) == !isSep(c)
    ensures Concat(Split(s, isSep)) == Filter(s, isKept)
    decreases |s|
  {
    if s != [] {
      var rest := Split(s[1..], isSep);
      ConcatSplit(s[1..], isSep, isKept);
      if isSep(s[0]) {
        var parts := [""] + rest;
        assert parts[1..] == rest;
      } else {
        var parts := [[s[0]] + rest[0]] + rest[1..];
        assert parts[0] == [s[0]] + rest[0] && parts[1..] == rest[1..];
        assert Concat(rest) == rest[0] + Concat(rest[1..]);
      }
    }
  }

  /** Dropping the empty pieces does not change their concatenation. */
  lemma {:induction false} ConcatNonEmpty(parts: seq<string>)
    ensures Concat(Filter(parts, NonEmpty)) == Concat(parts)
    decreases |parts|
  {
    if parts != [] {
      ConcatNonEmpty(parts[1..]);
      if NonEmpty(parts[0]) {
        var kept := [parts[0]] + Filter(parts[1..], NonEmpty);
        assert kept[0] == parts[0] && kept[1..] == Filter(parts[1..], NonEmpty);
      } else {
        assert parts[0] + Concat(parts[1..]) == Concat(parts[1..]);
      }
    }
  }

  /** The tokens of a line, put together, are exactly its word characters, in order. */
  lemma {:induction false} TokensKeepWords(line: string)
    ensures Concat(Tokens(line)) == Filter(line, IsWordChar)
  {
    ConcatSplit(line, IsSeparator, IsWordChar);
    ConcatNonEmpty(Split(line, IsSeparator));
  }

  /** The tokens of every kept line, in line order. */
  function TokenLines(tgf: string): seq<seq<string>> {
    var lines := Lines(tgf);
    seq(|lines|, i requires 0 <= i < |lines| => Tokens(lines[i]))
  }

  // ----- Numbers -----

  predicate AllDigits(d: string) {
    forall k :: 0 <= k < |d| ==> IsDigit(d[k])
  }

  /** The longest prefix of decimal digits. */
  function LeadingDigits(t: string): (r: string)
    ensures |r| <= |t| && r == t[..|r|] && AllDigits(r)
    ensures |r| == |t| || !IsDigit(t[|r|])
    decreases |t|
  {
    if t != [] && IsDigit(t[0]) then [t[0]] + LeadingDigits(t[1..]) else []
  }

  /** The value of a string of decimal digits, most significant first. */
  function DigitsValue(d: string): nat
    requires AllDigits(d)
    decreases |d|
  {
    if d == [] then 0 else DigitsValue(d[..|d| - 1]) * 10 + (d[|d| - 1] as int - '0' as int)
  }

  /**
   * `parseInt(t, 10)` on a token: the value of its leading digits, or None (NaN) when it
   * does not start with a digit. A token holds no white space and no sign.
   */
  function ParseInt(t: string): (r: Option<nat>)
    ensures r.None? <==> t == [] || !IsDigit(t[0])
  {
    var d := LeadingDigits(t);
    if d == [] then None else Some(DigitsValue(d))
  }

  /** `parseInt(t, 10) || 0` (line 38): NaN and 0 both give 0, so a capacity is never negative. */
  function CapacityOf(t: string): (c: nat)
    ensures c == 0 <==> ParseInt(t) == None || ParseInt(t) == Some(0)
  {
    ParseInt(t).GetOr(0)
  }

  /** The decimal digits of `n`, without leading zeros. */
  function Decimal(n: nat): (d: string)
    ensures |d| > 0 && AllDigits(d)
  {
    var last := [(('0' as int) + n % 10) as char];
    if n < 10 then last else Decimal(n / 10) + last
  }

  lemma {:induction false} DecimalValue(n: nat)
    ensures DigitsValue(Decimal(n)) == n
  {
    var d := Decimal(n);
    if n >= 10 {
      DecimalValue(n / 10);
      assert d[..|d| - 1] == Decimal(n / 10);
    }
  }

  lemma {:induction false} LeadingDigitsOf(d: string, rest: string)
    requires AllDigits(d) && (rest == [] || !IsDigit(rest[0]))
    ensures LeadingDigits(d + rest) == d
    decreases |d|
  {
    if d == [] {
      assert d + rest == rest;
    } else {
      assert (d + rest)[0] == d[0] && (d + rest)[1..] == d[1..] + rest;
      LeadingDigitsOf(d[1..], rest);
      assert d == [d[0]] + d[1..];
    }
  }

  /** A number written in decimal, followed by anything but a digit, reads back as that number. */
  lemma {:induction false} ParseDecimal(n: nat, rest: string)
    requires rest == [] || !IsDigit(rest[0])
    ensures ParseInt(Decimal(n) + rest) == Some(n)
    ensures CapacityOf(Decimal(n) + rest) == n
  {
    LeadingDigitsOf(Decimal(n), rest);
    DecimalValue(n);
  }

  // ----- Nodes -----

  /** A node element: its id, its label and its `type` field. */
  datatype NodeElement = NodeElement(id: string, nodeLabel: string, kind: string)

  predicate IsNodeLine(ts: seq<string>) {
    |ts| == 1 || |ts| == 2
  }

  /** A node line whose second token names no node type. */
  predicate HasBadType(ts: seq<string>) {
    |ts| == 2 && ts[1] != "source" && ts[1] != "sink"
  }

  /** The node of a node line (lines 12-29), or the error thrown for an unknown type. */
  function NodeOf(ts: seq<string>): Result<NodeElement>
    requires IsNodeLine(ts)
  {
    if |ts| == 2 && ts[1] == "source" then Ok(NodeElement(ts[0], ts[0], "source"))
    else if |ts| == 2 && ts[1] == "sink" then Ok(NodeElement(ts[0], ts[0], "sink"))
    else if |ts| == 2 then Err("Invalid node type: " + ts[1])
    else Ok(NodeElement(ts[0], ts[0], "default"))
  }

  /** The node a node line describes: named by its first token, typed by its second if any. */
  predicate Describes(ts: seq<string>, n: NodeElement) {
    IsNodeLine(ts) && n.id == ts[0] && n.nodeLabel == ts[0] && n.kind == (if |ts| == 1 then "default" else ts[1])
  }

  /**
   * The nodes of the node lines, in line order (lines 10-30); the first node line with a
   * second token other than "source" or "sink" throws instead.
   */
  function ParseNodes(lines: seq<seq<string>>): (r: Result<seq<NodeElement>>)
    ensures r.Err? <==> FindFirst(lines, HasBadType).Some?
    ensures r.Err? ==> r.error == "Invalid node type: " + lines[FindFirst(lines, HasBadType).value][1]
    decreases |lines|
  {
    if lines == [] then Ok([])
    else
      var rest := ParseNodes(lines[1..]);
      if !IsNodeLine(lines[0]) then rest
      else match NodeOf(lines[0])
        case Err(e) => Err(e)
        case Ok(n) => if rest.Err? then rest else Ok([n] + rest.value)
  }

  /** A successful parse gives one node per node line, in line order, as that line describes it. */
  lemma {:induction false} ParseNodesDescribes(lines: seq<seq<string>>)
    requires ParseNodes(lines).Ok?
    ensures |ParseNodes(lines).value| == |Filter(lines, IsNodeLine)|
    ensures forall k :: 0 <= k < |ParseNodes(lines).value| ==>
      Describes(Filter(lines, IsNodeLine)[k], ParseNodes(lines).value[k])
  {
    if lines != [] {
      var rest := ParseNodes(lines[1..]).value;
      var tail := Filter(lines[1..], IsNodeLine);
      ParseNodesDescribes(lines[1..]);
      FilterCons(lines, IsNodeLine);
      if IsNodeLine(lines[0]) {
        var n := NodeOf(lines[0]).value;
        assert Describes(lines[0], n);
        assert ParseNodes(lines).value == [n] + rest;
        assert Filter(lines, IsNodeLine) == [lines[0]] + tail;
      } else {
        assert ParseNodes(lines).value == rest;
        assert Filter(lines, IsNodeLine) == tail;
      }
    }
  }

  // ----- Edges -----

  /** An edge element: its id, endpoints, capacity and flow. */
  datatype EdgeElement = EdgeElement(id: string, source: string, target: string, capacity: int, flow: int)

  predicate IsEdgeLine(ts: seq<string>) {
    |ts| == 3
  }

  /** The id an edge line gets as written (line 35): the first token twice. */
  function EdgeId(ts: seq<string>): string
    requires IsEdgeLine(ts)
  {
    ts[0] + "-" + ts[0]
  }

  /** The id an edge line evidently should get: source and target. */
  function EdgeIdIntended(ts: seq<string>): string
    requires IsEdgeLine(ts)
  {
    ts[0] + "-" + ts[1]
  }

  /** The edge of an edge line, with the given id (lines 33-43). */
  function EdgeOf(ts: seq<string>, id: string): (e: EdgeElement)
    requires IsEdgeLine(ts)
    ensures e.source == ts[0] && e.target == ts[1] && e.capacity >= 0 && e.flow == 0
  {
    EdgeElement(id, ts[0], ts[1], CapacityOf(ts[2]), 0)
  }

  /** The edges of the edge lines, in line order, with the ids as written (lines 31-43). */
  function ParseEdges(lines: seq<seq<string>>): (r: seq<EdgeElement>)
    ensures |r| == |Filter(lines, IsEdgeLine)|
    ensures forall k :: 0 <= k < |r| ==> r[k].capacity >= 0 && r[k].flow == 0
  {
    var el := Filter(lines, IsEdgeLine);
    seq(|el|, k requires 0 <= k < |el| => EdgeOf(el[k], EdgeId(el[k])))
  }

  /** The edges of the edge lines, with the intended ids. */
  function ParseEdgesIntended(lines: seq<seq<string>>): (r: seq<EdgeElement>)
    ensures |r| == |Filter(lines, IsEdgeLine)|
    ensures forall k :: 0 <= k < |r| ==> r[k].capacity >= 0 && r[k].flow == 0
  {
    var el := Filter(lines, IsEdgeLine);
    seq(|el|, k requires 0 <= k < |el| => EdgeOf(el[k], EdgeIdIntended(el[k])))
  }

  /** Two edge lines from the same node get the same id as written. */
  lemma {:induction false} EdgeIdsCollide()
    ensures var ab, ac := ["a", "b", "1"], ["a", "c", "2"];
      IsEdgeLine(ab) && IsEdgeLine(ac) && ab[..2] != ac[..2] && EdgeId(ab) == EdgeId(ac)
  {
    var ab, ac := ["a", "b", "1"], ["a", "c", "2"];
    assert ab[..2][1] != ac[..2][1];
  }

  /** The intended ids tell edge lines apart by their endpoints (tokens hold no `-`). */
  lemma {:induction false} EdgeIdIntendedInjective(ts: seq<string>, us: seq<string>)
    requires IsEdgeLine(ts) && IsEdgeLine(us)
    requires forall c :: c in ts[0] ==> IsWordChar(c)
    requires forall c :: c in us[0] ==> IsWordChar(c)
    ensures EdgeIdIntended(ts) == EdgeIdIntended(us) <==> ts[0] == us[0] && ts[1] == us[1]
  {
    if EdgeIdIntended(ts) == EdgeIdIntended(us) {
      DashSplit(ts[0], ts[1], us[0], us[1]);
    }
  }

  lemma {:induction false} DashSplit(a: string, b: string, c: string, d: string)
    requires forall x :: x in a ==> IsWordChar(x)
    requires forall x :: x in c ==> IsWordChar(x)
    requires a + "-" + b == c + "-" + d
    ensures a == c && b == d
  {
    var s := a + "-" + b;
    assert forall k :: 0 <= k < |a| ==> s[k] == a[k] && a[k] in a;
    assert forall k :: 0 <= k < |c| ==> s[k] == c[k] && c[k] in c;
    assert s[|a|] == '-' && s[|c|] == '-';
    assert a == s[..|a|] == c;
    assert b == s[|a| + 1..] == d;
  }

  // ----- Reverse edges -----

  /** `o` runs against `e`: from `e`'s target to `e`'s source. */
  predicate IsReverseOf(o: EdgeElement, e: EdgeElement) {
    o.source == e.target && o.target == e.source
  }

  /** The reverse edge pushed for `e` (lines 53-63): no capacity and no flow. */
  function Reversed(e: EdgeElement): (r: EdgeElement)
    ensures IsReverseOf(r, e) && IsReverseOf(e, r) && r.capacity == 0 && r.flow == 0
  {
    EdgeElement(e.target + "-" + e.source, e.target, e.source, 0, 0)
  }

  predicate HasReverse(edges: seq<EdgeElement>, e: EdgeElement) {
    exists k :: 0 <= k < |edges| && IsReverseOf(edges[k], e)
  }

  /** Every edge has an edge running against it, as the augmenting algorithms need. */
  predicate Closed(edges: seq<EdgeElement>) {
    forall k :: 0 <= k < |edges| ==> HasReverse(edges, edges[k])
  }

  /** No two edges join the same ordered pair of nodes. */
  predicate DistinctPairs(edges: seq<EdgeElement>) {
    forall i, j :: 0 <= i < j < |edges| ==> edges[i].source != edges[j].source || edges[i].target != edges[j].target
  }

  /**
   * The edges the reverse pass appends as written: the test of lines 47-51 never looks at
   * the other edge, so every edge that is not a self-loop gets a reverse, in order.
   */
  function ReversesAsWritten(edges: seq<EdgeElement>): seq<EdgeElement>
    decreases |edges|
  {
    if edges == [] then []
    else
      var last := edges[|edges| - 1];
      ReversesAsWritten(edges[..|edges| - 1]) + (if last.source == last.target then [] else [Reversed(last)])
  }

  /**
   * The reverse pass as written (lines 45-65): each edge present when the pass starts is
   * visited once, and its reverse is appended when the filter finds nothing.
   */
  method CompleteReverse(parsed: seq<EdgeElement>) returns (edges: seq<EdgeElement>)
    ensures edges == parsed + ReversesAsWritten(parsed)
  {
    edges := parsed;
    var n := |edges|;
    var i := 0;
    while i < n
      invariant i <= n == |parsed| && edges == parsed + ReversesAsWritten(parsed[..i])
    {
      var edge := edges[i];
      var same := (otherEdge: EdgeElement) => edge.source == edge.target && edge.target == edge.source;
      var matches := Filter(edges, same);
      FilterEmpty(edges, same);
      ReversesStep(parsed, i, edges);
      if edge.source == edge.target {
        assert same(edges[0]);
      }
      if |matches| == 0 {
        edges := edges + [Reversed(edge)];
      }
      i := i + 1;
    }
    assert parsed[..n] == parsed;
  }

  /** One visit of the pass as written, on the edges so far. */
  lemma {:induction false} ReversesStep(parsed: seq<EdgeElement>, i: nat, edges: seq<EdgeElement>)
    requires i < |parsed| && edges == parsed + ReversesAsWritten(parsed[..i])
    ensures edges[i] == parsed[i]
    ensures parsed[i].source == parsed[i].target ==> edges == parsed + ReversesAsWritten(parsed[..i + 1])
    ensures parsed[i].source != parsed[i].target ==> edges + [Reversed(parsed[i])] == parsed + ReversesAsWritten(parsed[..i + 1])
  {
    assert parsed[..i + 1][..i] == parsed[..i];
    var tail: seq<EdgeElement> := if parsed[i].source == parsed[i].target then [] else [Reversed(parsed[i])];
    assert ReversesAsWritten(parsed[..i + 1]) == ReversesAsWritten(parsed[..i]) + tail;
    assert edges + tail == parsed + (ReversesAsWritten(parsed[..i]) + tail);
    if tail == [] {
      assert edges + tail == edges;
    }
  }

  /** Where each appended reverse comes from, and that every non-self-loop edge gets one. */
  lemma {:induction false} ReversesAsWrittenMembers(parsed: seq<EdgeElement>)
    ensures forall k :: 0 <= k < |ReversesAsWritten(parsed)| ==>
      exists m :: 0 <= m < |parsed| && ReversesAsWritten(parsed)[k] == Reversed(parsed[m])
    ensures forall m :: 0 <= m < |parsed| && parsed[m].source != parsed[m].target ==>
      Reversed(parsed[m]) in ReversesAsWritten(parsed)
    decreases |parsed|
  {
    if parsed != [] {
      var front := parsed[..|parsed| - 1];
      var last := parsed[|parsed| - 1];
      var r0 := ReversesAsWritten(front);
      var tail: seq<EdgeElement> := if last.source == last.target then [] else [Reversed(last)];
      ReversesAsWrittenMembers(front);
      assert ReversesAsWritten(parsed) == r0 + tail;
      forall k | 0 <= k < |r0 + tail| ensures exists m :: 0 <= m < |parsed| && (r0 + tail)[k] == Reversed(parsed[m]) {
        if k < |r0| {
          var m :| 0 <= m < |front| && r0[k] == Reversed(front[m]);
          assert front[m] == parsed[m];
        } else {
          assert (r0 + tail)[k] == Reversed(parsed[|parsed| - 1]);
        }
      }
      forall m | 0 <= m < |parsed| && parsed[m].source != parsed[m].target ensures Reversed(parsed[m]) in r0 + tail {
        if m < |front| {
          assert front[m] == parsed[m];
        } else {
          assert (r0 + tail)[|r0|] == Reversed(parsed[m]);
        }
      }
    } else {
      assert ReversesAsWritten(parsed) == [];
    }
  }

  /** As written, every edge ends up with an edge running against it. */
  lemma {:induction false} AsWrittenClosed(parsed: seq<EdgeElement>)
    ensures Closed(parsed + ReversesAsWritten(parsed))
  {
    var extra := ReversesAsWritten(parsed);
    var all := parsed + extra;
    ReversesAsWrittenMembers(parsed);
    forall k | 0 <= k < |all| ensures HasReverse(all, all[k]) {
      if k < |parsed| {
        var e := parsed[k];
        if e.source == e.target {
          assert IsReverseOf(all[k], e);
        } else {
          var j :| 0 <= j < |extra| && extra[j] == Reversed(e);
          assert IsReverseOf(all[|parsed| + j], e);
        }
      } else {
        var m :| 0 <= m < |parsed| && extra[k - |parsed|] == Reversed(parsed[m]);
        assert IsReverseOf(all[m], all[k]);
      }
    }
  }

  /**
   * The reverse pass as evidently intended: an edge gets a reverse only when no edge runs
   * against it yet, the edges appended so far included.
   */
  function Fill(acc: seq<EdgeElement>, todo: seq<EdgeElement>): seq<EdgeElement>
    decreases |todo|
  {
    if todo == [] then acc
    else Fill(if HasReverse(acc, todo[0]) then acc else acc + [Reversed(todo[0])], todo[1..])
  }

  /** The corrected reverse pass, in the source's loop form with the filter on the other edge. */
  method CompleteReverseIntended(parsed: seq<EdgeElement>) returns (edges: seq<EdgeElement>)
    ensures edges == Fill(parsed, parsed)
  {
    edges := parsed;
    var n := |edges|;
    var i := 0;
    while i < n
      invariant i <= n == |parsed| <= |edges|
      invariant forall k :: 0 <= k < n ==> edges[k] == parsed[k]
      invariant Fill(edges, parsed[i..]) == Fill(parsed, parsed)
    {
      var edge := edges[i];
      var against := (otherEdge: EdgeElement) => otherEdge.source == edge.target && otherEdge.target == edge.source;
      var matches := Filter(edges, against);
      FilterEmpty(edges, against);
      FillStep(edges, parsed, i);
      if |matches| == 0 {
        edges := edges + [Reversed(edge)];
      }
      i := i + 1;
    }
  }

  lemma {:induction false} FillStep(acc: seq<EdgeElement>, parsed: seq<EdgeElement>, i: nat)
    requires i < |parsed|
    ensures Fill(acc, parsed[i..]) == Fill(if HasReverse(acc, parsed[i]) then acc else acc + [Reversed(parsed[i])], parsed[i + 1..])
  {
    assert parsed[i..][0] == parsed[i] && parsed[i..][1..] == parsed[i + 1..];
  }

  lemma {:induction false} ReverseStays(acc: seq<EdgeElement>, x: EdgeElement, e: EdgeElement)
    requires HasReverse(acc, e)
    ensures HasReverse(acc + [x], e)
  {
    var k :| 0 <= k < |acc| && IsReverseOf(acc[k], e);
    assert (acc + [x])[k] == acc[k];
  }

  /** Filling from position `i` keeps what is closed closed and closes the rest. */
  lemma {:induction false} FillClosedFrom(parsed: seq<EdgeElement>, acc: seq<EdgeElement>, i: nat)
    requires i <= |parsed| <= |acc| && forall k :: 0 <= k < |parsed| ==> acc[k] == parsed[k]
    requires forall k :: 0 <= k < i ==> HasReverse(acc, acc[k])
    requires forall k :: |parsed| <= k < |acc| ==> HasReverse(acc, acc[k])
    ensures Closed(Fill(acc, parsed[i..]))
    decreases |parsed| - i
  {
    if i == |parsed| {
      assert parsed[i..] == [];
    } else {
      var e := parsed[i];
      assert parsed[i..][0] == e && parsed[i..][1..] == parsed[i + 1..];
      if HasReverse(acc, e) {
        FillClosedFrom(parsed, acc, i + 1);
      } else {
        AppendReverseKeeps(parsed, acc, i);
        FillClosedFrom(parsed, acc + [Reversed(e)], i + 1);
      }
    }
  }

  /** Appending the reverse of the `i`-th edge keeps the first `i` edges closed and closes it and its reverse. */
  lemma {:induction false} AppendReverseKeeps(parsed: seq<EdgeElement>, acc: seq<EdgeElement>, i: nat)
    requires i < |parsed| <= |acc| && forall k :: 0 <= k < |parsed| ==> acc[k] == parsed[k]
    requires forall k :: 0 <= k < i ==> HasReverse(acc, acc[k])
    requires forall k :: |parsed| <= k < |acc| ==> HasReverse(acc, acc[k])
    ensures var next := acc + [Reversed(parsed[i])];
      && (forall k :: 0 <= k < |parsed| ==> next[k] == parsed[k])
      && (forall k :: 0 <= k < i + 1 ==> HasReverse(next, next[k]))
      && (forall k :: |parsed| <= k < |next| ==> HasReverse(next, next[k]))
  {
    var e := parsed[i];
    var next := acc + [Reversed(e)];
    forall k | 0 <= k < |acc| && HasReverse(acc, acc[k]) ensures HasReverse(next, next[k]) {
      ReverseStays(acc, Reversed(e), acc[k]);
    }
    assert IsReverseOf(next[|acc|], e) && IsReverseOf(next[i], next[|acc|]);
  }

  /** The corrected pass leaves every edge with an edge running against it. */
  lemma {:induction false} FillClosed(parsed: seq<EdgeElement>)
    ensures Closed(Fill(parsed, parsed))
  {
    assert parsed[0..] == parsed;
    FillClosedFrom(parsed, parsed, 0);
  }

  /** The corrected pass adds no second edge between the same ordered pair of nodes. */
  lemma {:induction false} FillDistinct(acc: seq<EdgeElement>, todo: seq<EdgeElement>)
    requires DistinctPairs(acc)
    ensures DistinctPairs(Fill(acc, todo))
    decreases |todo|
  {
    if todo != [] {
      var e := todo[0];
      if HasReverse(acc, e) {
        FillDistinct(acc, todo[1..]);
      } else {
        var next := acc + [Reversed(e)];
        forall i, j | 0 <= i < j < |next| ensures next[i].source != next[j].source || next[i].target != next[j].target {
          if j == |acc| {
            assert !IsReverseOf(acc[i], e);
          }
        }
        FillDistinct(next, todo[1..]);
      }
    }
  }

  /** The corrected pass keeps the parsed edges first and appends only empty reverse edges. */
  lemma {:induction false} FillExtends(acc: seq<EdgeElement>, todo: seq<EdgeElement>)
    ensures acc <= Fill(acc, todo)
    ensures forall k :: |acc| <= k < |Fill(acc, todo)| ==> Fill(acc, todo)[k].capacity == 0 && Fill(acc, todo)[k].flow == 0
    decreases |todo|
  {
    if todo != [] {
      var next := if HasReverse(acc, todo[0]) then acc else acc + [Reversed(todo[0])];
      FillExtends(next, todo[1..]);
    }
  }

  /**
   * An edge listed together with its reverse: as written both get a second reverse, giving
   * two edges a→b; the corrected pass adds nothing.
   */
  lemma {:induction false} ReverseDuplicates()
    ensures var parsed := [EdgeElement("a-a", "a", "b", 1, 0), EdgeElement("b-b", "b", "a", 1, 0)];
      && DistinctPairs(parsed)
      && !DistinctPairs(parsed + ReversesAsWritten(parsed))
      && Fill(parsed, parsed) == parsed
  {
    var parsed := [EdgeElement("a-a", "a", "b", 1, 0), EdgeElement("b-b", "b", "a", 1, 0)];
    var all := parsed + ReversesAsWritten(parsed);
    assert ReversesAsWritten(parsed[..1]) == [Reversed(parsed[0])];
    assert all[0].source == all[3].source && all[0].target == all[3].target;
    assert IsReverseOf(parsed[1], parsed[0]) && IsReverseOf(parsed[0], parsed[1]);
    assert parsed[1..][1..] == [];
  }

  // ----- The whole reader -----

  /** The elements `tgf2cyto` returns. */
  datatype Elements = Elements(nodes: seq<NodeElement>, edges: seq<EdgeElement>)

  /**
   * `tgf2cyto` as written (lines 1-70): the nodes, or the node type error; then the edges of
   * the edge lines followed by the reverses the pass appends.
   */
  method Tgf2Cyto(tgf: string) returns (r: Result<Elements>)
    ensures r.Err? <==> FindFirst(TokenLines(tgf), HasBadType).Some?
    ensures r.Err? ==> r.error == ParseNodes(TokenLines(tgf)).error
    ensures r.Ok? ==> r.value.nodes == ParseNodes(TokenLines(tgf)).value
    ensures r.Ok? ==> r.value.edges == ParseEdges(TokenLines(tgf)) + ReversesAsWritten(ParseEdges(TokenLines(tgf)))
  {
    var tokens := TokenLines(tgf);
    var nodes := ParseNodes(tokens);
    if nodes.Err? {
      return Err(nodes.error);
    }
    var edges := CompleteReverse(ParseEdges(tokens));
    return Ok(Elements(nodes.value, edges));
  }

  /**
   * `tgf2cyto` with both corrections: edge ids name source and target, and a reverse is
   * added only where none exists. Every edge then has one, and distinct endpoint pairs stay
   * distinct.
   */
  method Tgf2CytoIntended(tgf: string) returns (r: Result<Elements>)
    ensures r.Err? <==> FindFirst(TokenLines(tgf), HasBadType).Some?
    ensures r.Err? ==> r.error == ParseNodes(TokenLines(tgf)).error
    ensures r.Ok? ==> r.value.nodes == ParseNodes(TokenLines(tgf)).value
    ensures r.Ok? ==> ParseEdgesIntended(TokenLines(tgf)) <= r.value.edges && Closed(r.value.edges)
    ensures r.Ok? && DistinctPairs(ParseEdgesIntended(TokenLines(tgf))) ==> DistinctPairs(r.value.edges)
  {
    var tokens := TokenLines(tgf);
    var nodes := ParseNodes(tokens);
    if nodes.Err? {
      return Err(nodes.error);
    }
    var parsed := ParseEdgesIntended(tokens);
    var edges := CompleteReverseIntended(parsed);
    FillClosed(parsed);
    FillExtends(parsed, parsed);
    if DistinctPairs(parsed) {
      FillDistinct(parsed, parsed);
    }
    return Ok(Elements(nodes.value, edges));
  }
}
