/** `ParseMvnTree` of parser/mvn/tree.go: Maven `dependency:tree` console
    output is cut into segments, each segment line is parsed into an artifact
    name and a depth, the lines are folded into named entries with a stack of
    parents, and the entries become the nodes and edges of a `DGraph`. */
module MvnTree {
  import opened Results
  import opened Text
  import opened Graph

  // ---------------------------------------------------------------------------
  // Segmentation (tree.go:10-33)

  const Info := "[INFO]"
  const Opener := "[INFO] --- dependency:"
  const Ruler := "[INFO] ----"

  /** A line that ends an open segment. */
  predicate Closes(l: string) {
    TrimSpace(l) == Info || HasPrefix(l, Ruler)
  }

  /** A line that a segment can hold: an `[INFO]` line that does not close it. */
  predicate Listed(l: string) {
    HasPrefix(l, Info) && !Closes(l)
  }

  /** The scanner's state: inside a segment or not, the lines of the open
      segment, and the segments closed so far. */
  datatype Scan = Scan(inSeg: bool, current: seq<string>, done: seq<seq<string>>)

  predicate AllListed(lines: seq<string>) {
    forall i :: 0 <= i < |lines| ==> Listed(lines[i])
  }

  /** Every line the scanner holds can sit in a segment, and nothing is held
      outside a segment. */
  predicate Segmented(st: Scan) {
    && AllListed(st.current)
    && (forall i :: 0 <= i < |st.done| ==> AllListed(st.done[i]))
    && (!st.inSeg ==> st.current == [])
  }

  /** One iteration of the segmentation loop. */
  function ScanLine(st: Scan, l: string): Scan
  {
    if !HasPrefix(l, Info) then st
    else if !st.inSeg && HasPrefix(l, Opener) then Scan(true, st.current, st.done)
    else if st.inSeg && Closes(l) then Scan(false, [], st.done + [st.current])
    else if st.inSeg then Scan(true, st.current + [l], st.done)
    else st
  }

  /** The segmentation loop over the remaining lines. */
  function ScanLines(st: Scan, lines: seq<string>): Scan
    decreases |lines|
  {
    if |lines| == 0 then st
    else ScanLines(ScanLine(st, lines[0]), lines[1..])
  }

  /** The segments of the console output `s`: the `[INFO]` lines between a
      `[INFO] --- dependency:` line and the next closing line. */
  function Segments(s: string): (r: seq<seq<string>>)
    ensures forall i :: 0 <= i < |r| ==> AllListed(r[i])
  {
    var lines := Split(s, '\n');
    ScanLinesSegmented(Scan(false, [], []), lines);
    ScanLines(Scan(false, [], []), lines).done
  }

  /** The scanner only ever holds lines a segment can hold. */
  lemma ScanLineSegmented(st: Scan, l: string)
    requires Segmented(st)
    ensures Segmented(ScanLine(st, l))
  {
    var r := ScanLine(st, l);
    if HasPrefix(l, Info) && st.inSeg && Closes(l) {
      assert r.done == st.done + [st.current];
    }
  }

  lemma {:induction false} ScanLinesSegmented(st: Scan, lines: seq<string>)
    requires Segmented(st)
    ensures Segmented(ScanLines(st, lines))
    decreases |lines|
  {
    if |lines| > 0 {
      ScanLineSegmented(st, lines[0]);
      ScanLinesSegmented(ScanLine(st, lines[0]), lines[1..]);
    }
  }

  /** Inside a segment, a listed line is collected. */
  lemma ScanListed(st: Scan, l: string)
    requires st.inSeg && Listed(l)
    ensures ScanLine(st, l) == Scan(true, st.current + [l], st.done)
  {
  }

  lemma ScanLinesCons(st: Scan, l: string, rest: seq<string>)
    ensures ScanLines(st, [l] + rest) == ScanLines(ScanLine(st, l), rest)
  {
    assert ([l] + rest)[0] == l && ([l] + rest)[1..] == rest;
  }

  /** Inside a segment, a listed line is collected and scanning goes on. */
  lemma ScanOne(cur: seq<string>, done: seq<seq<string>>, l: string, rest: seq<string>)
    requires Listed(l)
    ensures ScanLines(Scan(true, cur, done), [l] + rest) == ScanLines(Scan(true, cur + [l], done), rest)
  {
    ScanLinesCons(Scan(true, cur, done), l, rest);
    ScanListed(Scan(true, cur, done), l);
  }

  /** Inside a segment, listed lines are collected and nothing is closed. */
  lemma {:induction false} ScanBody(cur: seq<string>, done: seq<seq<string>>, body: seq<string>, rest: seq<string>)
    requires AllListed(body)
    ensures ScanLines(Scan(true, cur, done), body + rest) == ScanLines(Scan(true, cur + body, done), rest)
    decreases |body|
  {
    if |body| > 0 {
      assert body + rest == [body[0]] + (body[1..] + rest);
      ScanOne(cur, done, body[0], body[1..] + rest);
      AllListedTail(body);
      ScanBody(cur + [body[0]], done, body[1..], rest);
      assert cur + [body[0]] + body[1..] == cur + body;
    } else {
      assert body + rest == rest;
      assert cur + body == cur;
    }
  }

  lemma AllListedTail(body: seq<string>)
    requires |body| > 0 && AllListed(body)
    ensures AllListed(body[1..])
  {
    assert forall i :: 0 <= i < |body| - 1 ==> body[1..][i] == body[i + 1];
  }

  /** An opening line, listed lines and a closing line make exactly one
      segment holding those listed lines. */
  lemma ScanBlock(done: seq<seq<string>>, opener: string, body: seq<string>, closer: string, rest: seq<string>)
    requires HasPrefix(opener, Opener) && AllListed(body)
    requires HasPrefix(closer, Info) && Closes(closer)
    ensures ScanLines(Scan(false, [], done), [opener] + body + [closer] + rest)
         == ScanLines(Scan(false, [], done + [body]), rest)
  {
    var lines := [opener] + body + [closer] + rest;
    assert HasPrefix(opener, Info) by {
      assert opener[..|Info|] == Opener[..|Info|];
    }
    assert lines[0] == opener && lines[1..] == body + ([closer] + rest);
    ScanBody([], done, body, [closer] + rest);
    assert [] + body == body;
    assert ([closer] + rest)[0] == closer && ([closer] + rest)[1..] == rest;
  }

  /** A segment still open when the input ends is dropped. */
  lemma Unclosed(cur: seq<string>, done: seq<seq<string>>, body: seq<string>)
    requires AllListed(body)
    ensures ScanLines(Scan(true, cur, done), body).done == done
  {
    ScanBody(cur, done, body, []);
    assert body + [] == body;
  }

  /** A line without the `[INFO]` prefix is skipped, inside a segment or not. */
  lemma ScanSkip(st: Scan, l: string, rest: seq<string>)
    requires !HasPrefix(l, Info)
    ensures ScanLines(st, [l] + rest) == ScanLines(st, rest)
  {
    ScanLinesCons(st, l, rest);
  }

  /** A run of lines without the `[INFO]` prefix leaves the scan as it was. */
  lemma {:induction false} ScanSkipAll(st: Scan, skipped: seq<string>, rest: seq<string>)
    requires forall k :: 0 <= k < |skipped| ==> !HasPrefix(skipped[k], Info)
    ensures ScanLines(st, skipped + rest) == ScanLines(st, rest)
    decreases |skipped|
  {
    if |skipped| > 0 {
      assert skipped + rest == [skipped[0]] + (skipped[1..] + rest);
      ScanSkip(st, skipped[0], skipped[1..] + rest);
      ScanSkipAll(st, skipped[1..], rest);
    } else {
      assert skipped + rest == rest;
    }
  }

  /** Outside a segment, a line that does not open one is skipped: a line
      without the `[INFO]` prefix, and also an `[INFO]` line such as a banner,
      `[INFO] Scanning for projects...` or `[INFO] BUILD SUCCESS`. */
  lemma ScanOutside(done: seq<seq<string>>, l: string, rest: seq<string>)
    requires !HasPrefix(l, Opener)
    ensures ScanLines(Scan(false, [], done), [l] + rest) == ScanLines(Scan(false, [], done), rest)
  {
    ScanLinesCons(Scan(false, [], done), l, rest);
  }

  /** Outside a segment, a run of lines none of which opens one is skipped. */
  lemma {:induction false} ScanOutsideAll(done: seq<seq<string>>, gap: seq<string>, rest: seq<string>)
    requires forall k :: 0 <= k < |gap| ==> !HasPrefix(gap[k], Opener)
    ensures ScanLines(Scan(false, [], done), gap + rest) == ScanLines(Scan(false, [], done), rest)
    decreases |gap|
  {
    if |gap| > 0 {
      assert gap + rest == [gap[0]] + (gap[1..] + rest);
      ScanOutside(done, gap[0], gap[1..] + rest);
      ScanOutsideAll(done, gap[1..], rest);
    } else {
      assert gap + rest == rest;
    }
  }

  /** A line that can sit between an opener and a closer: a segment line, or
      a line without the `[INFO]` prefix (a warning, a download notice). */
  predicate Held(l: string) {
    Listed(l) || !HasPrefix(l, Info)
  }

  /** The `[INFO]` lines of `lines`, in order. */
  function InfoLines(lines: seq<string>): (r: seq<string>)
    ensures forall l :: l in r <==> l in lines && HasPrefix(l, Info)
    decreases |lines|
  {
    if |lines| == 0 then []
    else (if HasPrefix(lines[0], Info) then [lines[0]] else []) + InfoLines(lines[1..])
  }

  /** Inside a segment, the `[INFO]` lines of a body of held lines are
      collected in order, the others skipped, and nothing is closed. */
  lemma {:induction false} ScanMixed(cur: seq<string>, done: seq<seq<string>>, body: seq<string>, rest: seq<string>)
    requires forall i :: 0 <= i < |body| ==> Held(body[i])
    ensures ScanLines(Scan(true, cur, done), body + rest)
         == ScanLines(Scan(true, cur + InfoLines(body), done), rest)
    decreases |body|
  {
    if |body| > 0 {
      var tl := body[1..];
      assert body + rest == [body[0]] + (tl + rest);
      assert forall i :: 0 <= i < |tl| ==> Held(tl[i]) by {
        assert forall i :: 0 <= i < |tl| ==> tl[i] == body[i + 1];
      }
      if HasPrefix(body[0], Info) {
        ScanOne(cur, done, body[0], tl + rest);
        ScanMixed(cur + [body[0]], done, tl, rest);
        assert cur + [body[0]] + InfoLines(tl) == cur + InfoLines(body);
      } else {
        ScanSkip(Scan(true, cur, done), body[0], tl + rest);
        ScanMixed(cur, done, tl, rest);
        assert InfoLines(body) == InfoLines(tl);
      }
    } else {
      assert body + rest == rest;
      assert cur + InfoLines(body) == cur;
    }
  }

  /** An opening line, held lines and a closing line make exactly one segment
      holding the `[INFO]` lines among them. */
  lemma MixedBlock(done: seq<seq<string>>, opener: string, body: seq<string>, closer: string, rest: seq<string>)
    requires HasPrefix(opener, Opener) && forall i :: 0 <= i < |body| ==> Held(body[i])
    requires HasPrefix(closer, Info) && Closes(closer)
    ensures ScanLines(Scan(false, [], done), [opener] + body + [closer] + rest)
         == ScanLines(Scan(false, [], done + [InfoLines(body)]), rest)
  {
    var lines := [opener] + body + [closer] + rest;
    assert HasPrefix(opener, Info) by {
      assert opener[..|Info|] == Opener[..|Info|];
    }
    assert lines[0] == opener && lines[1..] == body + ([closer] + rest);
    ScanMixed([], done, body, [closer] + rest);
    assert [] + InfoLines(body) == InfoLines(body);
    assert ([closer] + rest)[0] == closer && ([closer] + rest)[1..] == rest;
  }

  /** Output chains block by block: lines that open nothing, then an opener,
      a mixed body and a closer, add exactly the body's `[INFO]` lines as the
      next segment, and scanning resumes outside a segment. */
  lemma GapBlock(done: seq<seq<string>>, gap: seq<string>, opener: string, body: seq<string>,
                 closer: string, rest: seq<string>)
    requires forall k :: 0 <= k < |gap| ==> !HasPrefix(gap[k], Opener)
    requires HasPrefix(opener, Opener) && forall i :: 0 <= i < |body| ==> Held(body[i])
    requires HasPrefix(closer, Info) && Closes(closer)
    ensures ScanLines(Scan(false, [], done), gap + ([opener] + body + [closer] + rest))
         == ScanLines(Scan(false, [], done + [InfoLines(body)]), rest)
  {
    ScanOutsideAll(done, gap, [opener] + body + [closer] + rest);
    MixedBlock(done, opener, body, closer, rest);
  }

  // ---------------------------------------------------------------------------
  // One tree line (tree.go:71-112)

  /** The characters Maven draws the tree with. */
  predicate IsIndent(c: char) {
    c == '+' || c == '-' || c == ' ' || c == '|' || c == '\\'
  }

  /** The number of leading tree-drawing characters. */
  function Indent(l: string): (n: nat)
    ensures n <= |l|
    ensures forall k :: 0 <= k < n ==> IsIndent(l[k])
    ensures n == |l| || !IsIndent(l[n])
    decreases |l|
  {
    if |l| > 0 && IsIndent(l[0]) then
      var n := 1 + Indent(l[1..]);
      assert forall k :: 1 <= k < n ==> l[k] == l[1..][k - 1];
      n
    else 0
  }

  /** The scope suffixes, in the order they are tried. */
  const Scopes: seq<string> := [":compile", ":test", ":provided", ":runtime"]

  /** `CutSuffix` tried with the scopes from the `i`-th on, stopping at the
      first that matches. */
  function CutFrom(l: string, i: nat): (r: string)
    requires i <= |Scopes|
    ensures r == l <==> forall j :: i <= j < |Scopes| ==> !HasSuffix(l, Scopes[j])
    ensures r != l ==> exists j :: i <= j < |Scopes| && r + Scopes[j] == l && FirstScope(l, i, j)
    decreases |Scopes| - i
  {
    if i == |Scopes| then l
    else
      var (a, cut) := CutSuffix(l, Scopes[i]);
      if cut then
        assert |Scopes[i]| > 0 && FirstScope(l, i, i);
        a
      else CutFrom(l, i + 1)
  }

  /** Of the scopes from the `i`-th on, the `j`-th is the first `l` ends with. */
  predicate FirstScope(l: string, i: nat, j: nat)
    requires i <= j < |Scopes|
  {
    HasSuffix(l, Scopes[j]) && forall m :: i <= m < j ==> !HasSuffix(l, Scopes[m])
  }

  /** `l` loses the first scope suffix it ends with, and only that one. */
  function CutScope(l: string): (r: string)
    ensures r == l <==> forall j :: 0 <= j < |Scopes| ==> !HasSuffix(l, Scopes[j])
    ensures r != l ==> exists j :: 0 <= j < |Scopes| && r + Scopes[j] == l && FirstScope(l, 0, j)
  {
    CutFrom(l, 0)
  }

  /** What a tree line holds: the artifact name and its depth. */
  datatype Line = Line(name: string, layer: int)

  /** A listed line is at least one character longer than `[INFO]` once
      trimmed, so dropping the first seven characters is safe. */
  lemma ListedLong(raw: string)
    requires Listed(raw)
    ensures HasPrefix(TrimSpace(raw), Info) && |TrimSpace(raw)| >= 7
  {
    TrimKeepsPrefix(raw, Info);
  }

  /** Parses one segment line: trims it, drops `[INFO] `, counts the tree
      drawing (three characters per level) and cuts the scope. A listed line
      never trims to the empty line the source skips. */
  function ParseLine(raw: string): (r: Line)
    requires Listed(raw)
    ensures 0 <= 3 * r.layer <= |TrimSpace(raw)| - 7
    ensures |r.name| <= |TrimSpace(raw)| - 7 - 3 * r.layer
  {
    ListedLong(raw);
    var l := TrimSpace(raw)[7..];
    var idt := Indent(l);
    Line(CutScope(l[idt..]), idt / 3)
  }

  /** The tree drawing stops where the first non-drawing character is. */
  lemma {:induction false} IndentOf(ind: string, rest: string)
    requires forall k :: 0 <= k < |ind| ==> IsIndent(ind[k])
    requires rest == [] || !IsIndent(rest[0])
    ensures Indent(ind + rest) == |ind|
    decreases |ind|
  {
    if |ind| > 0 {
      assert (ind + rest)[0] == ind[0];
      assert (ind + rest)[1..] == ind[1..] + rest;
      IndentOf(ind[1..], rest);
    } else {
      assert ind + rest == rest;
    }
  }

  /** Parsing recovers what a rendered tree line was drawn from: its depth is
      a third of its drawing, and its name is its text without the scope. */
  lemma ParseRendered(c: char, ind: string, rest: string)
    requires forall k :: 0 <= k < |ind| ==> IsIndent(ind[k])
    requires rest == [] || !IsIndent(rest[0])
    requires Listed(Info + [c] + ind + rest)
    requires var l := Info + [c] + ind + rest; !IsSpace(l[|l| - 1])
    ensures ParseLine(Info + [c] + ind + rest) == Line(CutScope(rest), |ind| / 3)
  {
    var l := Info + [c] + ind + rest;
    assert l[0] == '[';
    TrimNone(l);
    assert l[7..] == ind + rest;
    IndentOf(ind, rest);
    assert (ind + rest)[|ind|..] == rest;
  }

  // ---------------------------------------------------------------------------
  // Labels (tree.go:157-164)

  /** The label built from the `:`-separated pieces of a name: the first
      piece, then the second on its own line, then the rest re-joined. */
  function LabelOf(tkn: seq<string>): string
    requires |tkn| >= 1
  {
    tkn[0]
      + (if |tkn| > 1 then "\n" + tkn[1] else "")
      + (if |tkn| > 2 then "\n" + Join(tkn[2..], ":") else "")
  }

  /** The node label of an artifact name: its first two `:` become line
      breaks and the later ones stay. */
  function Label(name: string): (r: string)
    ensures r == ReplaceFirst(name, ':', '\n', 2)
  {
    var tkn := Split(name, ':');
    LabelSplit(tkn);
    LabelOf(tkn)
  }

  /** The label computed from the pieces equals the joined pieces with their
      first two separators replaced. */
  lemma LabelSplit(tkn: seq<string>)
    requires |tkn| >= 1
    requires forall i :: 0 <= i < |tkn| ==> ':' !in tkn[i]
    ensures LabelOf(tkn) == ReplaceFirst(Join(tkn, ":"), ':', '\n', 2)
  {
    if |tkn| == 1 {
      LabelSingle(tkn);
    } else if |tkn| == 2 {
      LabelPair(tkn);
    } else {
      LabelMore(tkn);
    }
  }

  lemma LabelSingle(tkn: seq<string>)
    requires |tkn| == 1 && ':' !in tkn[0]
    ensures LabelOf(tkn) == ReplaceFirst(Join(tkn, ":"), ':', '\n', 2)
  {
    LabelOne(tkn[0], 2);
  }

  lemma LabelPair(tkn: seq<string>)
    requires |tkn| == 2 && ':' !in tkn[0] && ':' !in tkn[1]
    ensures LabelOf(tkn) == ReplaceFirst(Join(tkn, ":"), ':', '\n', 2)
  {
    assert Join(tkn, ":") == tkn[0] + ([':'] + tkn[1]) by {
      assert tkn[1..][0] == tkn[1] && |tkn[1..]| == 1;
    }
    LabelPairFrom(LabelOf(tkn), Join(tkn, ":"), tkn[0], tkn[1]);
  }

  lemma LabelPairFrom(joined: string, name: string, a: string, b: string)
    requires ':' !in a && ':' !in b
    requires joined == a + "\n" + b
    requires name == a + ([':'] + b)
    ensures joined == ReplaceFirst(name, ':', '\n', 2)
  {
    LabelTwo(a, b);
  }

  /** A piece without separators is its own label. */
  lemma LabelOne(a: string, k: nat)
    requires ':' !in a
    ensures ReplaceFirst(a, ':', '\n', k) == a
  {
    ReplaceFirstSkips(a, "", ':', '\n', k);
    assert a + "" == a;
  }

  /** The first separator after a piece is replaced when replacements remain. */
  lemma LabelHead(a: string, rest: string, k: nat)
    requires ':' !in a && k > 0
    ensures ReplaceFirst(a + ([':'] + rest), ':', '\n', k) == a + "\n" + ReplaceFirst(rest, ':', '\n', k - 1)
  {
    ReplaceFirstSkips(a, [':'] + rest, ':', '\n', k);
    ReplaceFirstHit(rest, ':', '\n', k - 1);
  }

  lemma LabelTwo(a: string, b: string)
    requires ':' !in a && ':' !in b
    ensures ReplaceFirst(a + ([':'] + b), ':', '\n', 2) == a + "\n" + b
  {
    LabelHead(a, b, 2);
    LabelOne(b, 1);
  }

  lemma LabelThree(a: string, b: string, more: string)
    requires ':' !in a && ':' !in b
    ensures ReplaceFirst(a + ([':'] + (b + ([':'] + more))), ':', '\n', 2) == a + "\n" + b + "\n" + more
  {
    LabelHead(a, b + ([':'] + more), 2);
    LabelHead(b, more, 1);
    ReplaceFirstNone(more, ':', '\n');
  }

  lemma LabelMore(tkn: seq<string>)
    requires |tkn| > 2
    requires forall i :: 0 <= i < |tkn| ==> ':' !in tkn[i]
    ensures LabelOf(tkn) == ReplaceFirst(Join(tkn, ":"), ':', '\n', 2)
  {
    var a, b, more := tkn[0], tkn[1], Join(tkn[2..], ":");
    assert ':' !in a && ':' !in b;
    JoinTwo(tkn);
    LabelFrom(LabelOf(tkn), Join(tkn, ":"), a, b, more);
  }

  lemma LabelFrom(joined: string, name: string, a: string, b: string, more: string)
    requires ':' !in a && ':' !in b
    requires joined == a + "\n" + b + "\n" + more
    requires name == a + ([':'] + (b + ([':'] + more)))
    ensures joined == ReplaceFirst(name, ':', '\n', 2)
  {
    LabelThree(a, b, more);
  }

  /** Joining three or more pieces: the first two pieces, then the rest. */
  lemma JoinTwo(tkn: seq<string>)
    requires |tkn| > 2
    ensures Join(tkn, ":") == tkn[0] + ([':'] + (tkn[1] + ([':'] + Join(tkn[2..], ":"))))
  {
    var t1 := tkn[1..];
    assert t1[0] == tkn[1] && t1[1..] == tkn[2..];
    assert Join(t1, ":") == tkn[1] + ":" + Join(tkn[2..], ":");
  }

  // ---------------------------------------------------------------------------
  // Entries (tree.go:35-65)

  /** An artifact seen in some segment: its id, name, last seen depth, and the
      names of its direct dependencies in first-seen order. */
  datatype Entry = Entry(id: int, name: string, layer: int, deps: seq<string>)

  /** The entries by name, and the last id handed out. */
  datatype Tree = Tree(lastId: int, entries: map<string, Entry>)

  const EmptyTree := Tree(0, map[])

  /** The index panic at tree.go:126, with the name of the line that hit it. */
  datatype ParseError = EmptyParentStack(name: string)

  function EntryIds(m: map<string, Entry>): set<int> {
    set k | k in m :: m[k].id
  }

  /** Different names hold entries with different ids. */
  predicate DistinctEntryIds(m: map<string, Entry>) {
    forall k1, k2 :: k1 in m && k2 in m && k1 != k2 ==> m[k1].id != m[k2].id
  }

  /** Ids 1..lastId, one per name, and every entry filed under its own name. */
  ghost predicate Numbered(t: Tree) {
    && t.lastId == |t.entries|
    && EntryIds(t.entries) == Upto(t.lastId)
    && DistinctEntryIds(t.entries)
    && (forall k :: k in t.entries ==> t.entries[k].name == k)
  }

  predicate NoRepeats(deps: seq<string>) {
    forall i, j :: 0 <= i < j < |deps| ==> deps[i] != deps[j]
  }

  /** Every dependency is a registered name, and no list repeats a name. */
  ghost predicate Linked(t: Tree) {
    forall k :: k in t.entries ==>
      NoRepeats(t.entries[k].deps) && forall d :: d in t.entries[k].deps ==> d in t.entries
  }

  ghost predicate WellFormed(t: Tree) {
    Numbered(t) && Linked(t)
  }

  /** `newEntry`: a new name gets the next id and no dependencies; a known
      name only has its depth overwritten. */
  function NewEntry(t: Tree, name: string, layer: int): (r: Tree)
    ensures r.entries.Keys == t.entries.Keys + {name}
    ensures r.entries[name].layer == layer && r.entries[name].name == (if name in t.entries then t.entries[name].name else name)
    ensures name !in t.entries ==> r.lastId == t.lastId + 1 && r.entries[name] == Entry(t.lastId + 1, name, layer, [])
    ensures name in t.entries ==> r.lastId == t.lastId
    ensures forall k :: k in t.entries ==> r.entries[k].id == t.entries[k].id && r.entries[k].deps == t.entries[k].deps
    ensures forall k :: k in t.entries && k != name ==> r.entries[k] == t.entries[k]
  {
    if name in t.entries then Tree(t.lastId, t.entries[name := t.entries[name].(layer := layer)])
    else Tree(t.lastId + 1, t.entries[name := Entry(t.lastId + 1, name, layer, [])])
  }

  /** `addDep`: `name` joins the dependencies of `p` unless already there. */
  function AddDep(t: Tree, p: string, name: string): (r: Tree)
    requires p in t.entries
    ensures r.lastId == t.lastId && r.entries.Keys == t.entries.Keys
    ensures forall k :: k in t.entries && k != p ==> r.entries[k] == t.entries[k]
    ensures r.entries[p] == t.entries[p].(deps := r.entries[p].deps)
    ensures forall d :: d in r.entries[p].deps <==> d in t.entries[p].deps || d == name
    ensures NoRepeats(t.entries[p].deps) ==> NoRepeats(r.entries[p].deps)
  {
    var e := t.entries[p];
    if name in e.deps then t
    else Tree(t.lastId, t.entries[p := e.(deps := e.deps + [name])])
  }

  lemma EntryIdsInsert(m: map<string, Entry>, k: string, e: Entry)
    requires k !in m
    ensures EntryIds(m[k := e]) == EntryIds(m) + {e.id}
  {
    var r := m[k := e];
    forall x | x in EntryIds(r)
      ensures x in EntryIds(m) + {e.id}
    {
      var j :| j in r && r[j].id == x;
      if j != k {
        assert m[j].id == x;
      }
    }
    forall x | x in EntryIds(m)
      ensures x in EntryIds(r)
    {
      var j :| j in m && m[j].id == x;
      assert r[j].id == x;
    }
    assert r[k].id == e.id;
  }

  lemma EntryIdsReplace(m: map<string, Entry>, k: string, e: Entry)
    requires k in m && e.id == m[k].id
    ensures EntryIds(m[k := e]) == EntryIds(m)
  {
    var r := m[k := e];
    forall x | x in EntryIds(r)
      ensures x in EntryIds(m)
    {
      var j :| j in r && r[j].id == x;
      assert m[j].id == x;
    }
    forall x | x in EntryIds(m)
      ensures x in EntryIds(r)
    {
      var j :| j in m && m[j].id == x;
      assert r[j].id == x;
    }
  }

  /** A new name filed with the next id keeps the numbering: that id is one
      past every id handed out. */
  lemma InsertNumbered(t: Tree, name: string, e: Entry)
    requires Numbered(t) && name !in t.entries && e.id == t.lastId + 1 && e.name == name
    ensures Numbered(Tree(t.lastId + 1, t.entries[name := e]))
  {
    var m := t.entries[name := e];
    assert EntryIds(m) == Upto(t.lastId + 1) by {
      EntryIdsInsert(t.entries, name, e);
      UptoSucc(t.lastId);
    }
    assert DistinctEntryIds(m) by {
      OutsideIds(t, e.id);
      DistinctInsert(t.entries, name, e);
    }
    assert |m| == t.lastId + 1 by {
      assert m.Keys == t.entries.Keys + {name};
    }
    assert forall k :: k in m ==> m[k].name == k;
  }

  /** An entry whose id no other entry holds keeps the ids distinct. */
  lemma DistinctInsert(m: map<string, Entry>, k: string, e: Entry)
    requires DistinctEntryIds(m) && k !in m
    requires forall j :: j in m ==> m[j].id != e.id
    ensures DistinctEntryIds(m[k := e])
  {
  }

  /** An id past the numbering is held by no entry. */
  lemma OutsideIds(t: Tree, x: int)
    requires EntryIds(t.entries) == Upto(t.lastId) && x > t.lastId
    ensures forall j :: j in t.entries ==> t.entries[j].id != x
  {
    forall j | j in t.entries
      ensures t.entries[j].id != x
    {
      assert t.entries[j].id in EntryIds(t.entries);
    }
  }

  /** An entry replaced by one with the same id and name keeps the numbering. */
  lemma ReplaceNumbered(t: Tree, name: string, e: Entry)
    requires Numbered(t) && name in t.entries && e.id == t.entries[name].id && e.name == name
    ensures Numbered(Tree(t.lastId, t.entries[name := e]))
  {
    EntryIdsReplace(t.entries, name, e);
    assert t.entries[name := e].Keys == t.entries.Keys;
  }

  /** `newEntry` keeps the numbering. */
  lemma NewEntryNumbered(t: Tree, name: string, layer: int)
    requires Numbered(t)
    ensures Numbered(NewEntry(t, name, layer))
  {
    if name !in t.entries {
      InsertNumbered(t, name, Entry(t.lastId + 1, name, layer, []));
    } else {
      ReplaceNumbered(t, name, t.entries[name].(layer := layer));
    }
  }

  /** Adding a dependency touches no id and no name. */
  lemma AddDepNumbered(t: Tree, p: string, name: string)
    requires Numbered(t) && p in t.entries
    ensures Numbered(AddDep(t, p, name))
  {
    var e := t.entries[p];
    if name !in e.deps {
      ReplaceNumbered(t, p, e.(deps := e.deps + [name]));
    }
  }

  /** Adding `name` under `p` and then registering `name` keeps the tree well
      formed: the new dependency is a registered name by the end. */
  lemma AttachWellFormed(t: Tree, ps: seq<string>, name: string, layer: int)
    requires WellFormed(t) && |ps| > 0 && ps[|ps| - 1] in t.entries
    ensures WellFormed(Attach(t, ps, name, layer).tree)
  {
    var p := ps[|ps| - 1];
    var t1 := AddDep(t, p, name);
    AddDepNumbered(t, p, name);
    NewEntryNumbered(t1, name, layer);
    var r := NewEntry(t1, name, layer);
    forall k | k in r.entries
      ensures NoRepeats(r.entries[k].deps) && forall d :: d in r.entries[k].deps ==> d in r.entries
    {
      if k in t.entries {
        assert r.entries[k].deps == t1.entries[k].deps;
        if k != p {
          assert t1.entries[k] == t.entries[k];
        }
      } else {
        assert r.entries[k].deps == [];
      }
    }
  }

  /** Registering a name keeps the tree well formed. */
  lemma NewEntryWellFormed(t: Tree, name: string, layer: int)
    requires WellFormed(t)
    ensures WellFormed(NewEntry(t, name, layer))
  {
    NewEntryNumbered(t, name, layer);
    var r := NewEntry(t, name, layer);
    forall k | k in r.entries
      ensures NoRepeats(r.entries[k].deps) && forall d :: d in r.entries[k].deps ==> d in r.entries
    {
      if k !in t.entries {
        assert r.entries[k].deps == [];
      }
    }
  }

  // ---------------------------------------------------------------------------
  // Parent resolution (tree.go:67-147)

  /** The fold's state within a segment: the entries, the stack of parents
      (by name: each name has exactly one `*Entry`, so a name identifies it), and
      the depth of the previous line. */
  datatype Walk = Walk(tree: Tree, parents: seq<string>, currLayer: int)

  /** Every stacked parent is a registered name. */
  predicate ParentsKnown(w: Walk) {
    forall i :: 0 <= i < |w.parents| ==> w.parents[i] in w.tree.entries
  }

  function Layer(t: Tree, p: string): int
    requires p in t.entries
  {
    t.entries[p].layer
  }

  /** The inner loop at tree.go:121-123: pops while more than one parent is
      left and the line is no deeper than the top. */
  function PopWhile(t: Tree, ps: seq<string>, layer: int): (r: seq<string>)
    requires forall i :: 0 <= i < |ps| ==> ps[i] in t.entries
    ensures |r| <= |ps| && r == ps[..|r|]
    ensures |r| == 0 <==> |ps| == 0
    ensures |r| > 1 ==> layer > Layer(t, r[|r| - 1])
    ensures forall i :: |r| <= i < |ps| ==> layer <= Layer(t, ps[i])
    decreases |ps|
  {
    if |ps| > 1 && layer <= Layer(t, ps[|ps| - 1]) then
      var r := PopWhile(t, ps[..|ps| - 1], layer);
      assert ps[..|ps| - 1][..|r|] == ps[..|r|];
      r
    else ps
  }

  /** Files `name` under the parent on top of `ps` and stacks it. */
  function Attach(t: Tree, ps: seq<string>, name: string, layer: int): (w: Walk)
    requires |ps| > 0 && ps[|ps| - 1] in t.entries
  {
    Walk(NewEntry(AddDep(t, ps[|ps| - 1], name), name, layer), ps + [name], layer)
  }

  /** One line of a segment. An empty stack takes the line as the segment's
      root; a deeper line becomes a child of the top; any other line pops once
      and then as `PopWhile` does, and fails (the source panics) when that
      leaves no parent. The source's third branch (tree.go:140-144) cannot be
      reached, since its two guards cover every depth. */
  function Step(w: Walk, ln: Line): (r: Result<Walk, ParseError>)
    requires ParentsKnown(w)
    ensures r.Err? <==> |w.parents| == 1 && ln.layer <= w.currLayer
    ensures r.Err? ==> r.error == EmptyParentStack(ln.name)
    ensures r.Ok? ==> ParentsKnown(r.value) && r.value.currLayer == ln.layer
  {
    var t := w.tree;
    if |w.parents| == 0 then
      Ok(Walk(NewEntry(t, ln.name, ln.layer), [ln.name], ln.layer))
    else if ln.layer <= w.currLayer then
      var ps := PopWhile(t, w.parents[..|w.parents| - 1], ln.layer);
      if |ps| == 0 then Err(EmptyParentStack(ln.name))
      else Ok(Attach(t, ps, ln.name, ln.layer))
    else
      Ok(Attach(t, w.parents, ln.name, ln.layer))
  }

  /** The stack after a step: the line's name on top, over what is left of
      the previous stack; a deeper line keeps the whole stack, any other line
      pops at least once. */
  lemma StepStack(w: Walk, ln: Line)
    requires ParentsKnown(w) && Step(w, ln).Ok?
    ensures var ps := Step(w, ln).value.parents;
      && |ps| > 0 && ps[|ps| - 1] == ln.name
      && |ps| - 1 <= |w.parents| && ps[..|ps| - 1] == w.parents[..|ps| - 1]
    ensures |w.parents| > 0 && ln.layer > w.currLayer ==> Step(w, ln).value.parents == w.parents + [ln.name]
    ensures |w.parents| > 0 && ln.layer <= w.currLayer ==> |Step(w, ln).value.parents| <= |w.parents|
  {
    if |w.parents| > 0 {
      if ln.layer <= w.currLayer {
        var kept := PopWhile(w.tree, w.parents[..|w.parents| - 1], ln.layer);
        StackAfterPop(w, ln, kept);
      } else {
        var ps := Step(w, ln).value.parents;
        assert ps == w.parents + [ln.name];
        assert ps[..|ps| - 1] == w.parents;
      }
    }
  }

  /** After popping: the kept parents, then the line's name. */
  lemma StackAfterPop(w: Walk, ln: Line, kept: seq<string>)
    requires ParentsKnown(w) && |w.parents| > 0 && ln.layer <= w.currLayer
    requires kept == PopWhile(w.tree, w.parents[..|w.parents| - 1], ln.layer)
    requires Step(w, ln).Ok?
    ensures var ps := Step(w, ln).value.parents;
      && ps == kept + [ln.name] && |kept| < |w.parents|
      && ps[..|ps| - 1] == w.parents[..|ps| - 1]
  {
    var ps := Step(w, ln).value.parents;
    assert ps == kept + [ln.name];
    assert w.parents[..|w.parents| - 1][..|kept|] == w.parents[..|kept|];
    assert ps[..|ps| - 1] == kept;
  }

  /** The entries after a step: the line's name is registered with the line's
      depth, and becomes a dependency of the parent it is stacked on. */
  lemma StepEntries(w: Walk, ln: Line)
    requires ParentsKnown(w) && Step(w, ln).Ok?
    ensures var r := Step(w, ln).value;
      && r.tree.entries.Keys == w.tree.entries.Keys + {ln.name}
      && r.tree.entries[ln.name].layer == ln.layer
    ensures |w.parents| > 0 ==> var r := Step(w, ln).value;
      |r.parents| >= 2 && ln.name in r.tree.entries[r.parents[|r.parents| - 2]].deps
  {
    if |w.parents| > 0 {
      var ps := if ln.layer <= w.currLayer then PopWhile(w.tree, w.parents[..|w.parents| - 1], ln.layer) else w.parents;
      assert Step(w, ln).value == Attach(w.tree, ps, ln.name, ln.layer);
      AttachEntries(w.tree, ps, ln.name, ln.layer);
    }
  }

  /** Attaching files the name under the parent on top of the stack. */
  lemma AttachEntries(t: Tree, ps: seq<string>, name: string, layer: int)
    requires |ps| > 0 && ps[|ps| - 1] in t.entries
    ensures var r := Attach(t, ps, name, layer);
      && r.tree.entries.Keys == t.entries.Keys + {name}
      && r.tree.entries[name].layer == layer
      && |r.parents| >= 2 && name in r.tree.entries[r.parents[|r.parents| - 2]].deps
  {
    var r := Attach(t, ps, name, layer);
    assert r.parents[|r.parents| - 2] == ps[|ps| - 1];
  }

  /** A step keeps the entries well formed. */
  lemma StepWellFormed(w: Walk, ln: Line)
    requires ParentsKnown(w) && WellFormed(w.tree)
    ensures Step(w, ln).Ok? ==> WellFormed(Step(w, ln).value.tree)
  {
    if |w.parents| == 0 {
      NewEntryWellFormed(w.tree, ln.name, ln.layer);
    } else if Step(w, ln).Ok? {
      StepAttachWellFormed(w, ln);
    }
  }

  lemma StepAttachWellFormed(w: Walk, ln: Line)
    requires ParentsKnown(w) && WellFormed(w.tree)
    requires |w.parents| > 0 && Step(w, ln).Ok?
    ensures WellFormed(Step(w, ln).value.tree)
  {
    var t := w.tree;
    if ln.layer <= w.currLayer {
      var ps := PopWhile(t, w.parents[..|w.parents| - 1], ln.layer);
      AttachWellFormed(t, ps, ln.name, ln.layer);
    } else {
      AttachWellFormed(t, w.parents, ln.name, ln.layer);
    }
  }

  /** The names the lines of a segment carry. */
  function Names(lines: seq<string>): set<string>
    requires AllListed(lines)
    decreases |lines|
  {
    if |lines| == 0 then {}
    else
      AllListedTail(lines);
      {ParseLine(lines[0]).name} + Names(lines[1..])
  }

  /** The fold over the lines of one segment. */
  function RunLines(w: Walk, lines: seq<string>): (r: Result<Walk, ParseError>)
    requires ParentsKnown(w) && AllListed(lines)
    ensures r.Ok? ==> ParentsKnown(r.value)
    ensures r.Ok? ==> r.value.tree.entries.Keys == w.tree.entries.Keys + Names(lines)
    decreases |lines|
  {
    if |lines| == 0 then Ok(w)
    else
      AllListedTail(lines);
      match Step(w, ParseLine(lines[0]))
      case Err(e) => Err(e)
      case Ok(w1) => RunLines(w1, lines[1..])
  }

  lemma {:induction false} RunLinesWellFormed(w: Walk, lines: seq<string>)
    requires ParentsKnown(w) && AllListed(lines) && WellFormed(w.tree)
    ensures RunLines(w, lines).Ok? ==> WellFormed(RunLines(w, lines).value.tree)
    decreases |lines|
  {
    if |lines| > 0 {
      AllListedTail(lines);
      StepWellFormed(w, ParseLine(lines[0]));
      var s := Step(w, ParseLine(lines[0]));
      if s.Ok? {
        RunLinesWellFormed(s.value, lines[1..]);
      }
    }
  }

  predicate AllSegmentsListed(segs: seq<seq<string>>) {
    forall i :: 0 <= i < |segs| ==> AllListed(segs[i])
  }

  /** The names all segments carry. */
  function SegmentNames(segs: seq<seq<string>>): set<string>
    requires AllSegmentsListed(segs)
    decreases |segs|
  {
    if |segs| == 0 then {} else Names(segs[0]) + SegmentNames(segs[1..])
  }

  /** The fold over all segments: each starts with an empty stack and depth
      0, while names and ids carry over from segment to segment. */
  function RunSegments(t: Tree, segs: seq<seq<string>>): (r: Result<Tree, ParseError>)
    requires AllSegmentsListed(segs)
    ensures r.Ok? ==> r.value.entries.Keys == t.entries.Keys + SegmentNames(segs)
    decreases |segs|
  {
    if |segs| == 0 then Ok(t)
    else
      match RunLines(Walk(t, [], 0), segs[0])
      case Err(e) => Err(e)
      case Ok(w) => RunSegments(w.tree, segs[1..])
  }

  lemma {:induction false} RunSegmentsWellFormed(t: Tree, segs: seq<seq<string>>)
    requires AllSegmentsListed(segs) && WellFormed(t)
    ensures RunSegments(t, segs).Ok? ==> WellFormed(RunSegments(t, segs).value)
    decreases |segs|
  {
    if |segs| > 0 {
      RunLinesWellFormed(Walk(t, [], 0), segs[0]);
      var w := RunLines(Walk(t, [], 0), segs[0]);
      if w.Ok? {
        RunSegmentsWellFormed(w.value.tree, segs[1..]);
      }
    }
  }

  /** The entries of the whole console output. */
  function Collect(s: string): (r: Result<Tree, ParseError>)
    ensures r.Ok? ==> r.value.entries.Keys == SegmentNames(Segments(s))
  {
    RunSegments(EmptyTree, Segments(s))
  }

  /** The entries the fold ends with are numbered 1..n and linked. */
  lemma CollectWellFormed(s: string)
    ensures Collect(s).Ok? ==> WellFormed(Collect(s).value)
  {
    assert WellFormed(EmptyTree) by {
      assert Upto(0) == {};
      assert EntryIds(map[]) == {};
    }
    RunSegmentsWellFormed(EmptyTree, Segments(s));
  }

  // ---------------------------------------------------------------------------
  // The graph (tree.go:153-178)

  /** The node an entry becomes. */
  function NodeOf(e: Entry): Node {
    Node(e.id, Label(e.name), "")
  }

  function IdsOf(t: Tree, names: set<string>): set<int> {
    set k | k in names && k in t.entries :: t.entries[k].id
  }

  function NodesOf(t: Tree, names: set<string>): set<Node> {
    set k | k in names && k in t.entries :: NodeOf(t.entries[k])
  }

  /** The (from, to) id pairs of the dependencies of the entries in `names`. */
  ghost function DepPairs(t: Tree, names: set<string>): set<(int, int)> {
    set k, d | k in names && k in t.entries && d in t.entries && d in t.entries[k].deps
      :: (t.entries[k].id, t.entries[d].id)
  }

  /** The edges from `from` to each of `deps`, in order. */
  function DepEdges(t: Tree, from: int, deps: seq<string>): (r: seq<DEdge>)
    requires forall d :: d in deps ==> d in t.entries
    ensures |r| == |deps|
    ensures forall i :: 0 <= i < |deps| ==> r[i] == DEdge(from, t.entries[deps[i]].id, "", "")
    decreases |deps|
  {
    if |deps| == 0 then []
    else [DEdge(from, t.entries[deps[0]].id, "", "")] + DepEdges(t, from, deps[1..])
  }

  /** The dependency edges of one entry repeat no pair: the names are
      distinct and so are their ids. */
  lemma DepEdgesUnique(t: Tree, from: int, deps: seq<string>)
    requires Numbered(t) && NoRepeats(deps)
    requires forall d :: d in deps ==> d in t.entries
    ensures UniquePairs(DepEdges(t, from, deps))
    ensures Pairs(DepEdges(t, from, deps)) == set d | d in deps && d in t.entries :: (from, t.entries[d].id)
    ensures forall e :: e in DepEdges(t, from, deps) ==> e.fromId == from && e.text == "" && e.tooltip == ""
  {
    var r := DepEdges(t, from, deps);
    forall i, j | 0 <= i < j < |r|
      ensures Pair(r[i]) != Pair(r[j])
    {
      assert deps[i] != deps[j];
    }
    var want := set d | d in deps && d in t.entries :: (from, t.entries[d].id);
    forall x | x in want
      ensures x in Pairs(r)
    {
      var d :| d in deps && d in t.entries && x == (from, t.entries[d].id);
      var i :| 0 <= i < |deps| && deps[i] == d;
      assert Pair(r[i]) == x;
    }
    forall x | x in Pairs(r)
      ensures x in want
    {
      var i :| 0 <= i < |r| && Pair(r[i]) == x;
      assert deps[i] in deps;
    }
  }

  /** One more entry emitted: its id joins the ids, its node the nodes. */
  lemma EmitIds(t: Tree, done: set<string>, k: string)
    requires Numbered(t) && k in t.entries && k !in done
    ensures t.entries[k].id !in IdsOf(t, done)
    ensures IdsOf(t, done + {k}) == IdsOf(t, done) + {t.entries[k].id}
    ensures NodesOf(t, done + {k}) == NodesOf(t, done) + {NodeOf(t.entries[k])}
  {
  }

  /** One more entry emitted: its dependency pairs join the pairs. */
  lemma EmitPairs(t: Tree, done: set<string>, k: string)
    requires k in t.entries && Linked(t)
    ensures DepPairs(t, done + {k}) == DepPairs(t, done) + set d | d in t.entries[k].deps && d in t.entries :: (t.entries[k].id, t.entries[d].id)
  {
  }

  /** The graph a tree of entries is drawn as: one node per name, labelled
      from it, and one edge per dependency. */
  ghost predicate Drawn(t: Tree, nodes: seq<Node>, edges: seq<DEdge>) {
    && |nodes| == |t.entries|
    && (forall x :: x in nodes <==> x in NodesOf(t, t.entries.Keys))
    && Ids(nodes) == IdsOf(t, t.entries.Keys)
    && Pairs(edges) == DepPairs(t, t.entries.Keys)
    && (forall e :: e in edges ==> e.text == "" && e.tooltip == "")
  }

  /** The nodes emitted for the names in `done`. */
  ghost predicate NodesEmitted(t: Tree, done: set<string>, nodes: seq<Node>) {
    && |nodes| == |done|
    && UniqueIds(nodes) && Ids(nodes) == IdsOf(t, done)
    && (forall x :: x in nodes <==> x in NodesOf(t, done))
  }

  /** The edges emitted for the names in `done`. */
  ghost predicate EdgesEmitted(t: Tree, done: set<string>, edges: seq<DEdge>) {
    && UniquePairs(edges) && Pairs(edges) == DepPairs(t, done)
    && (forall e :: e in edges ==> e.fromId in IdsOf(t, done) && e.text == "" && e.tooltip == "")
  }

  lemma EmitNode(t: Tree, done: set<string>, k: string, nodes: seq<Node>)
    requires Numbered(t) && k in t.entries && k !in done
    requires NodesEmitted(t, done, nodes)
    ensures NodesEmitted(t, done + {k}, nodes + [NodeOf(t.entries[k])])
  {
    var n := NodeOf(t.entries[k]);
    EmitIds(t, done, k);
    IdsConcat(nodes, [n]);
    assert Ids([n]) == {n.id} by {
      assert [n][0] == n;
    }
    UniqueIdsConcat(nodes, [n]);
  }

  lemma EmitEdges(t: Tree, done: set<string>, k: string, edges: seq<DEdge>)
    requires WellFormed(t) && k in t.entries && k !in done
    requires EdgesEmitted(t, done, edges)
    ensures EdgesEmitted(t, done + {k}, edges + DepEdges(t, t.entries[k].id, t.entries[k].deps))
  {
    var e := t.entries[k];
    var out := DepEdges(t, e.id, e.deps);
    EmitIds(t, done, k);
    EmitPairs(t, done, k);
    DepEdgesUnique(t, e.id, e.deps);
    UniquePairsConcat(edges, out, e.id);
    PairsConcat(edges, out);
  }

  /** The nodes emitted for the names `ks`, in that order. */
  function NodesFor(t: Tree, ks: seq<string>): (r: seq<Node>)
    requires forall k :: k in ks ==> k in t.entries
  {
    if |ks| == 0 then []
    else NodesFor(t, ks[..|ks| - 1]) + [NodeOf(t.entries[ks[|ks| - 1]])]
  }

  /** The edges emitted for the names `ks`, in that order. */
  function EdgesFor(t: Tree, ks: seq<string>): (r: seq<DEdge>)
    requires forall k :: k in ks ==> k in t.entries
    requires Linked(t)
  {
    if |ks| == 0 then []
    else
      var e := t.entries[ks[|ks| - 1]];
      EdgesFor(t, ks[..|ks| - 1]) + DepEdges(t, e.id, e.deps)
  }

  /** The names listed in `ks`. */
  function Members(ks: seq<string>): set<string> {
    set k | k in ks
  }

  /** Dropping the last of distinct names leaves distinct names, none of
      them the dropped one. */
  lemma NoRepeatsInit(ks: seq<string>)
    requires |ks| > 0 && NoRepeats(ks)
    ensures NoRepeats(ks[..|ks| - 1]) && ks[|ks| - 1] !in ks[..|ks| - 1]
    ensures Members(ks) == Members(ks[..|ks| - 1]) + {ks[|ks| - 1]}
  {
    var init := ks[..|ks| - 1];
    assert forall i :: 0 <= i < |init| ==> init[i] == ks[i];
    assert ks == init + [ks[|ks| - 1]];
  }

  /** Emitting distinct names one after the other emits each name's node
      once. */
  lemma {:induction false} NodesEmittedFor(t: Tree, ks: seq<string>)
    requires Numbered(t) && NoRepeats(ks)
    requires forall k :: k in ks ==> k in t.entries
    ensures NodesEmitted(t, Members(ks), NodesFor(t, ks))
    decreases |ks|
  {
    if |ks| == 0 {
      assert Members(ks) == {};
      assert IdsOf(t, {}) == {};
    } else {
      var init := ks[..|ks| - 1];
      NoRepeatsInit(ks);
      NodesEmittedFor(t, init);
      EmitNode(t, Members(init), ks[|ks| - 1], NodesFor(t, init));
    }
  }

  /** Emitting distinct names one after the other emits each name's
      dependency edges once. */
  lemma {:induction false} EdgesEmittedFor(t: Tree, ks: seq<string>)
    requires WellFormed(t) && NoRepeats(ks)
    requires forall k :: k in ks ==> k in t.entries
    ensures EdgesEmitted(t, Members(ks), EdgesFor(t, ks))
    decreases |ks|
  {
    if |ks| == 0 {
      assert Members(ks) == {};
      assert DepPairs(t, {}) == {};
    } else {
      var init := ks[..|ks| - 1];
      NoRepeatsInit(ks);
      EdgesEmittedFor(t, init);
      EmitEdges(t, Members(init), ks[|ks| - 1], EdgesFor(t, init));
    }
  }

  /** Once every name is emitted, the nodes and edges draw the tree. */
  lemma EmitDone(t: Tree, done: set<string>, nodes: seq<Node>, edges: seq<DEdge>)
    requires done == t.entries.Keys
    requires NodesEmitted(t, done, nodes) && EdgesEmitted(t, done, edges)
    ensures UniqueIds(nodes) && UniquePairs(edges)
    ensures Drawn(t, nodes, edges)
  {
  }

  /** Moving one name from the names left to the names emitted keeps the
      two apart and together covering all names. */
  lemma PickNext(keys: set<string>, rest: set<string>, order: seq<string>, k: string)
    requires rest + Members(order) == keys && rest !! Members(order) && NoRepeats(order)
    requires k in rest
    ensures (rest - {k}) + Members(order + [k]) == keys && (rest - {k}) !! Members(order + [k])
    ensures NoRepeats(order + [k])
  {
    assert k !in Members(order);
    assert Members(order + [k]) == Members(order) + {k};
  }

  /** Emitting one more name appends its node and its edges. */
  lemma ForSnoc(t: Tree, order: seq<string>, k: string)
    requires Linked(t) && k in t.entries
    requires forall x :: x in order ==> x in t.entries
    ensures var e := t.entries[k];
      && NodesFor(t, order + [k]) == NodesFor(t, order) + [NodeOf(e)]
      && EdgesFor(t, order + [k]) == EdgesFor(t, order) + DepEdges(t, e.id, e.deps)
  {
    assert (order + [k])[..|order|] == order;
  }

  /** The loop at tree.go:155-173, over the names in Go's unspecified map
      order (the ghost `order`): a node per entry, and an edge per
      dependency. */
  method Emit(t: Tree) returns (nodes: seq<Node>, edges: seq<DEdge>)
    requires WellFormed(t)
    ensures UniqueIds(nodes) && UniquePairs(edges)
    ensures Drawn(t, nodes, edges)
  {
    nodes, edges := [], [];
    ghost var order: seq<string> := [];
    var rest := t.entries.Keys;
    while rest != {}
      invariant rest + Members(order) == t.entries.Keys && rest !! Members(order)
      invariant NoRepeats(order)
      invariant nodes == NodesFor(t, order) && edges == EdgesFor(t, order)
      decreases |rest|
    {
      var k :| k in rest;
      var e := t.entries[k];
      PickNext(t.entries.Keys, rest, order, k);
      ForSnoc(t, order, k);
      order := order + [k];
      nodes, edges := nodes + [NodeOf(e)], edges + DepEdges(t, e.id, e.deps);
      rest := rest - {k};
    }
    NodesEmittedFor(t, order);
    EdgesEmittedFor(t, order);
    EmitDone(t, t.entries.Keys, nodes, edges);
  }

  /** `ParseMvnTree`: fails only where the source panics on an empty parent
      stack; otherwise the graph always builds (no id and no dependency pair
      repeats), titled `title`, with exactly one node per distinct name. */
  method ParseMvnTree(title: string, s: string) returns (r: Result<DGraph, ParseError>)
    ensures r.Err? <==> Collect(s).Err?
    ensures r.Err? ==> r.error == Collect(s).error
    ensures r.Ok? ==> Built(r.value) && r.value.title == title
    ensures r.Ok? ==> Drawn(Collect(s).value, r.value.nodes, r.value.edges)
    ensures r.Ok? ==> Ids(r.value.nodes) == Upto(|r.value.nodes|)
  {
    var c := Collect(s);
    if c.Err? {
      return Err(c.error);
    }
    CollectWellFormed(s);
    var nodes, edges := Emit(c.value);
    var g := NewDGraph(title, nodes, edges);
    r := Ok(g.value);
    assert IdsOf(c.value, c.value.entries.Keys) == EntryIds(c.value.entries);
  }
}
