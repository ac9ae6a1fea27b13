/** The first half of sortImportSection: reading the import block line by line
    into import records, each carrying the comment lines above it. */
module Parser {
  import opened Types
  import opened Text

  // ---------------------------------------------------------------------------
  // One line

  /** A trimmed line the comment loop consumes: blank, or a line comment. */
  predicate IsCommentOrBlank(text: string) {
    HasPrefix(text, "//") || text == ""
  }

  /** A line the comment loop consumes. */
  predicate Skipped(line: string) {
    IsCommentOrBlank(TrimSpace(line))
  }

  /** The comment loop keeps the non-blank lines it consumes. */
  function AddComment(pre: seq<string>, text: string): seq<string> {
    if text != "" then pre + [text] else pre
  }

  /** The text before the first "//" of a trimmed line (all of it when there is
      none). The split ignores quotes, so a "//" inside the path splits too. */
  function CodePart(text: string): string {
    var i := Index(text, "//");
    if i == -1 then text else text[..i]
  }

  /** The text from the first "//" of a trimmed line on, or "". */
  function CommentPart(text: string): string {
    var i := Index(text, "//");
    if i == -1 then "" else text[i..]
  }

  /** The line splits at the first "//": the code part holds none, and the
      comment part is empty or starts with it. */
  lemma SplitComment(text: string)
    ensures var code, comment := CodePart(text), CommentPart(text);
      && code + comment == text
      && (forall p :: 0 <= p < |code| ==> !OccursAt(text, "//", p))
      && (comment == "" || HasPrefix(comment, "//"))
  {
    var i := Index(text, "//");
    IndexSpec(text, "//");
    if i != -1 {
      assert text[..i] + text[i..] == text;
    }
  }

  /** The body of the scanner loop for the line that ends a run of comments:
      split off the trailing comment, take one or two fields, unquote the last
      one. Errors carry the line as it was read. */
  function ParseImportLine(line: string, pre: seq<string>): (r: Result<Import, ParseError>)
    ensures r.Err? ==> r.error == InvalidImportLine(line) || r.error == UnquotableImportPath(line)
    ensures r.Ok? ==> r.value.preComments == pre
  {
    var text := TrimSpace(line);
    var fields := Fields(CodePart(text));
    if |fields| == 0 || |fields| > 2 then Err(InvalidImportLine(line))
    else
      match Unquote(fields[|fields| - 1])
      case None => Err(UnquotableImportPath(line))
      case Some(path) =>
        Ok(Import(pre, CommentPart(text), if |fields| == 2 then fields[0] else "", path))
  }

  /** The two error exits of an import line and the record it yields: zero or
      more than two fields before the comment is an invalid line, a last field
      that is no string literal an unquotable path; otherwise the path is what
      the literal spells, the local name is the first of two fields, and the
      comment after the import is kept. Which outcome a line has does not
      depend on the comments gathered above it. */
  lemma ParseImportLineSpec(line: string, pre: seq<string>)
    ensures var r := ParseImportLine(line, pre);
      var fields := Fields(CodePart(TrimSpace(line)));
      && (r == Err(InvalidImportLine(line)) <==> |fields| == 0 || |fields| > 2)
      && (r == Err(UnquotableImportPath(line)) <==>
            1 <= |fields| <= 2 && Unquote(fields[|fields| - 1]).None?)
      && (r.Ok? ==>
            && r.value.preComments == pre
            && r.value.postComment == CommentPart(TrimSpace(line))
            && Quote(r.value.path) == fields[|fields| - 1]
            && r.value.ident == (if |fields| == 2 then fields[0] else ""))
  {
  }

  // ---------------------------------------------------------------------------
  // Runs of lines

  /** f applied to every element of xs, the results concatenated. */
  function FlatMap<T, U>(f: T -> seq<U>, xs: seq<T>): seq<U> {
    if xs == [] then [] else f(xs[0]) + FlatMap(f, xs[1..])
  }

  /** FlatMap distributes over a split of its input. */
  lemma {:induction false} FlatMapSplit<T, U>(f: T -> seq<U>, xs: seq<T>, m: nat)
    requires m <= |xs|
    ensures FlatMap(f, xs) == FlatMap(f, xs[..m]) + FlatMap(f, xs[m..])
    decreases m
  {
    if m > 0 {
      FlatMapSplit(f, xs[1..], m - 1);
      assert xs[1..][..m - 1] == xs[..m][1..];
      assert xs[1..][m - 1..] == xs[m..];
    } else {
      assert xs[..0] == [] && xs[0..] == xs;
    }
  }

  /** The first element's image followed by the rest's. */
  lemma FlatMapCons<T, U>(f: T -> seq<U>, xs: seq<T>)
    requires xs != []
    ensures FlatMap(f, xs) == f(xs[0]) + FlatMap(f, xs[1..])
  {
  }

  /** Elements with empty images contribute nothing. */
  lemma {:induction false} FlatMapNil<T, U>(f: T -> seq<U>, xs: seq<T>)
    requires forall i :: 0 <= i < |xs| ==> f(xs[i]) == []
    ensures FlatMap(f, xs) == []
    decreases |xs|
  {
    if xs != [] {
      FlatMapNil(f, xs[1..]);
    }
  }

  /** A line's contribution to the comments: the trimmed line when it is a
      comment. */
  function LineComments(line: string): seq<string> {
    var text := TrimSpace(line);
    if HasPrefix(text, "//") then [text] else []
  }

  /** A line's contribution to the import lines: itself unless blank or a comment. */
  function LineCode(line: string): seq<string> {
    if Skipped(line) then [] else [line]
  }

  /** The comment lines among ls, trimmed, in order; blank lines dropped. */
  function CommentsOf(ls: seq<string>): seq<string> {
    FlatMap(LineComments, ls)
  }

  /** The lines that are neither blank nor comments: the import lines. */
  function CodeLines(ls: seq<string>): seq<string> {
    FlatMap(LineCode, ls)
  }

  /** The index of the first line from k on that is neither blank nor a
      comment, or the number of lines when there is none. */
  function NextCode(lines: seq<string>, k: nat): (m: nat)
    requires k <= |lines|
    ensures k <= m <= |lines|
    ensures forall j :: k <= j < m ==> Skipped(lines[j])
    ensures m < |lines| ==> !Skipped(lines[m])
    decreases |lines| - k
  {
    if k == |lines| || !Skipped(lines[k]) then k else NextCode(lines, k + 1)
  }

  /** The comments of lines k to m: those of line k, then those after it. */
  lemma CommentsOfCons(lines: seq<string>, pre: seq<string>, k: nat, m: nat)
    requires k < m <= |lines| && Skipped(lines[k])
    ensures AddComment(pre, TrimSpace(lines[k])) + CommentsOf(lines[k + 1..m])
            == pre + CommentsOf(lines[k..m])
  {
    FlatMapCons(LineComments, lines[k..m]);
    assert lines[k..m][1..] == lines[k + 1..m];
  }

  /** The import lines from k on: the first one, then those after it. */
  lemma CodeLinesFrom(lines: seq<string>, k: nat, m: nat)
    requires k <= m < |lines|
    requires forall j :: k <= j < m ==> Skipped(lines[j])
    requires !Skipped(lines[m])
    ensures CodeLines(lines[k..]) == [lines[m]] + CodeLines(lines[m + 1..])
  {
    FlatMapSplit(LineCode, lines[k..], m - k);
    SliceParts(lines, k, m);
    forall i | 0 <= i < m - k
      ensures LineCode(lines[k..m][i]) == []
    {
      assert lines[k..m][i] == lines[k + i];
    }
    FlatMapNil(LineCode, lines[k..m]);
    FlatMapCons(LineCode, lines[m..]);
  }

  /** The comment lines from k on: those before the first import line, then
      those after it. */
  lemma CommentsFrom(lines: seq<string>, k: nat, m: nat)
    requires k <= m < |lines| && !Skipped(lines[m])
    ensures CommentsOf(lines[k..]) == CommentsOf(lines[k..m]) + CommentsOf(lines[m + 1..])
  {
    FlatMapSplit(LineComments, lines[k..], m - k);
    SliceParts(lines, k, m);
    FlatMapCons(LineComments, lines[m..]);
    NoLineComments(lines[m]);
  }

  /** The slices a split of the lines from k on at m makes. */
  lemma SliceParts<T>(xs: seq<T>, k: nat, m: nat)
    requires k <= m < |xs|
    ensures xs[k..][..m - k] == xs[k..m] && xs[k..][m - k..] == xs[m..]
    ensures xs[m..][0] == xs[m] && xs[m..][1..] == xs[m + 1..]
  {
  }

  /** An import line holds no comment line. */
  lemma NoLineComments(line: string)
    requires !Skipped(line)
    ensures LineComments(line) == []
  {
  }

  // ---------------------------------------------------------------------------
  // The scanner loop

  /** An import record and the index of the line after its import line. */
  datatype Taken = Taken(imp: Import, next: nat)

  /** The outcome of parsing an import line that ends before line next. */
  function Finish(p: Result<Import, ParseError>, next: nat): Result<Taken, ParseError> {
    if p.Err? then Err(p.error) else Ok(Taken(p.value, next))
  }

  /** One turn of the scanner loop from line k: skip blank lines and gather
      comment lines onto pre, then parse the import line that ends the run.
      Running out of lines inside the run is the dangling-comment error. */
  function TakeImport(lines: seq<string>, k: nat, pre: seq<string>): (r: Result<Taken, ParseError>)
    requires k <= |lines|
    ensures r.Ok? ==> k < r.value.next <= |lines|
    decreases |lines| - k
  {
    if k == |lines| then Err(DanglingComment)
    else
      var text := TrimSpace(lines[k]);
      if IsCommentOrBlank(text) then TakeImport(lines, k + 1, AddComment(pre, text))
      else Finish(ParseImportLine(lines[k], pre), k + 1)
  }

  /** A turn that meets its import line at m parses it with the comments of
      lines k to m added to pre. */
  lemma {:induction false} TakeImportAt(lines: seq<string>, k: nat, pre: seq<string>, m: nat)
    requires k <= m < |lines|
    requires forall j :: k <= j < m ==> Skipped(lines[j])
    requires !Skipped(lines[m])
    ensures TakeImport(lines, k, pre) == Finish(ParseImportLine(lines[m], pre + CommentsOf(lines[k..m])), m + 1)
    decreases m - k
  {
    if k == m {
      assert lines[k..m] == [];
      assert pre + CommentsOf(lines[k..m]) == pre;
    } else {
      TakeImportAt(lines, k + 1, AddComment(pre, TrimSpace(lines[k])), m);
      CommentsOfCons(lines, pre, k, m);
    }
  }

  /** A turn over blank and comment lines only ends in the dangling-comment error. */
  lemma {:induction false} TakeImportDangling(lines: seq<string>, k: nat, pre: seq<string>)
    requires k <= |lines|
    requires forall j :: k <= j < |lines| ==> Skipped(lines[j])
    ensures TakeImport(lines, k, pre) == Err(DanglingComment)
    decreases |lines| - k
  {
    if k < |lines| {
      TakeImportDangling(lines, k + 1, AddComment(pre, TrimSpace(lines[k])));
    }
  }

  /** Records already appended in front of the outcome of the lines still to read. */
  function Prepend(imps: seq<Import>, r: Result<seq<Import>, ParseError>): Result<seq<Import>, ParseError> {
    if r.Err? then r else Ok(imps + r.value)
  }

  /** The scanner loop from line k: import records in the order of their lines. */
  function ParseLines(lines: seq<string>, k: nat): (r: Result<seq<Import>, ParseError>)
    requires k <= |lines|
    ensures r.Ok? ==> |r.value| <= |lines| - k
    decreases |lines| - k
  {
    if k == |lines| then Ok([])
    else
      var t := TakeImport(lines, k, []);
      if t.Err? then Err(t.error) else Prepend([t.value.imp], ParseLines(lines, t.value.next))
  }

  /** The whole import block: bufio.ScanLines, then the scanner loop. */
  function ParseSection(section: string): (r: Result<seq<Import>, ParseError>)
    ensures r.Ok? ==> |r.value| <= |ScanLines(section)|
  {
    ParseLines(ScanLines(section), 0)
  }

  /** The comment lines of all the records, in order. */
  function AllComments(imps: seq<Import>): seq<string> {
    if imps == [] then [] else imps[0].preComments + AllComments(imps[1..])
  }

  /** Every import line parses, with the comments of the record beside it, to
      that record. */
  predicate EachParses(codes: seq<string>, imps: seq<Import>)
    decreases |codes|
  {
    && |codes| == |imps|
    && (codes != [] ==>
          && ParseImportLine(codes[0], imps[0].preComments) == Ok(imps[0])
          && EachParses(codes[1..], imps[1..]))
  }

  /** EachParses, line by line. */
  lemma {:induction false} EachParsesAt(codes: seq<string>, imps: seq<Import>, i: nat)
    requires EachParses(codes, imps) && i < |codes|
    ensures ParseImportLine(codes[i], imps[i].preComments) == Ok(imps[i])
    decreases i
  {
    if i > 0 {
      EachParsesAt(codes[1..], imps[1..], i - 1);
      assert codes[1..][i - 1] == codes[i] && imps[1..][i - 1] == imps[i];
    }
  }

  /** Records for import lines and comment lines: one record per import line,
      in their order, each parsed from its line; and the comments of all
      records, in order, are exactly the comment lines. */
  predicate Records(codes: seq<string>, comments: seq<string>, imps: seq<Import>) {
    EachParses(codes, imps) && AllComments(imps) == comments
  }

  /** An import line and its record in front of others. */
  lemma RecordsCons(code: string, codes: seq<string>, comments: seq<string>, imp: Import, rest: seq<Import>)
    requires ParseImportLine(code, imp.preComments) == Ok(imp)
    requires Records(codes, comments, rest)
    ensures Records([code] + codes, imp.preComments + comments, [imp] + rest)
  {
    assert ([code] + codes)[1..] == codes;
    assert ([imp] + rest)[1..] == rest;
  }

  /** A successful scanner loop from line k delivers the records of the import
      lines and comment lines from k on. */
  lemma {:induction false} ParseLinesSpec(lines: seq<string>, k: nat)
    requires k <= |lines|
    ensures var r := ParseLines(lines, k);
      r.Ok? ==> Records(CodeLines(lines[k..]), CommentsOf(lines[k..]), r.value)
    decreases |lines| - k
  {
    if k < |lines| && ParseLines(lines, k).Ok? {
      var m := NextCode(lines, k);
      ParseLinesNoDangling(lines, k);
      ParseLinesSpec(lines, m + 1);
      var imp := ParseLinesAt(lines, k, m);
      RecordsFrom(lines, k, m, imp, ParseLines(lines, m + 1).value);
    }
  }

  /** Lines from k on that hold no import line make the scanner loop fail. */
  lemma ParseLinesNoDangling(lines: seq<string>, k: nat)
    requires k < |lines|
    ensures ParseLines(lines, k).Ok? ==> NextCode(lines, k) < |lines|
  {
    if NextCode(lines, k) == |lines| {
      TakeImportDangling(lines, k, []);
    }
  }

  /** A successful scanner loop whose first import line is line m: the record
      of that line, with the comments before it, then the records after it. */
  lemma ParseLinesAt(lines: seq<string>, k: nat, m: nat) returns (imp: Import)
    requires k <= m < |lines|
    requires forall j :: k <= j < m ==> Skipped(lines[j])
    requires !Skipped(lines[m])
    requires ParseLines(lines, k).Ok?
    ensures imp.preComments == CommentsOf(lines[k..m])
    ensures ParseImportLine(lines[m], imp.preComments) == Ok(imp)
    ensures ParseLines(lines, k) == Prepend([imp], ParseLines(lines, m + 1))
  {
    TakeImportAt(lines, k, [], m);
    var pre := CommentsOf(lines[k..m]);
    assert [] + pre == pre;
    imp := ParseImportLine(lines[m], pre).value;
  }

  /** The records from the first import line on, from those after it. */
  lemma RecordsFrom(lines: seq<string>, k: nat, m: nat, imp: Import, rest: seq<Import>)
    requires k <= m < |lines|
    requires forall j :: k <= j < m ==> Skipped(lines[j])
    requires !Skipped(lines[m])
    requires imp.preComments == CommentsOf(lines[k..m])
    requires ParseImportLine(lines[m], imp.preComments) == Ok(imp)
    requires Records(CodeLines(lines[m + 1..]), CommentsOf(lines[m + 1..]), rest)
    ensures Records(CodeLines(lines[k..]), CommentsOf(lines[k..]), [imp] + rest)
  {
    CodeLinesFrom(lines, k, m);
    CommentsFrom(lines, k, m);
    RecordsCons(lines[m], CodeLines(lines[m + 1..]), CommentsOf(lines[m + 1..]), imp, rest);
  }

  /** What the parser delivers for a block: a record per import line, in the
      order of the lines, each parsed from its line with the comment lines
      above it; and the comments of all records, in order, are exactly the
      comment lines of the block. */
  lemma ParseSectionSpec(section: string)
    ensures var r := ParseSection(section);
      var lines := ScanLines(section);
      r.Ok? ==> Records(CodeLines(lines), CommentsOf(lines), r.value)
  {
    var lines := ScanLines(section);
    ParseLinesSpec(lines, 0);
    assert lines[0..] == lines;
  }

  // ---------------------------------------------------------------------------
  // Import blocks as chunks

  /** A chunk of lines that yields imp: blank and comment lines, then one
      import line that parses, with the comments of the lines above it, to imp. */
  predicate IsChunk(c: seq<string>, imp: Import) {
    && c != []
    && (forall j :: 0 <= j < |c| - 1 ==> Skipped(c[j]))
    && !Skipped(c[|c| - 1])
    && imp.preComments == CommentsOf(c[..|c| - 1])
    && ParseImportLine(c[|c| - 1], imp.preComments) == Ok(imp)
  }

  /** Each chunk yields the import beside it. */
  predicate EachChunk(chunks: seq<seq<string>>, imps: seq<Import>)
    decreases |chunks|
  {
    && |chunks| == |imps|
    && (chunks != [] ==> IsChunk(chunks[0], imps[0]) && EachChunk(chunks[1..], imps[1..]))
  }

  /** The chunks joined back into lines. */
  function Concat(chunks: seq<seq<string>>): seq<string> {
    if chunks == [] then [] else chunks[0] + Concat(chunks[1..])
  }

  /** Lines k to m and the lines after them, from a chunk and the rest. */
  lemma ChunkAt(lines: seq<string>, k: nat, c: seq<string>, rest: seq<string>)
    requires k <= |lines| && lines[k..] == c + rest && c != []
    ensures var m := k + |c| - 1;
      && m < |lines| && lines[m] == c[|c| - 1]
      && lines[k..m] == c[..|c| - 1]
      && lines[m + 1..] == rest
      && (forall j :: k <= j < m ==> lines[j] == c[j - k])
  {
    var m := k + |c| - 1;
    assert lines[m] == lines[k..][|c| - 1];
    assert lines[k..m] == lines[k..][..|c| - 1];
    assert lines[m + 1..] == lines[k..][|c|..];
    forall j | k <= j < m
      ensures lines[j] == c[j - k]
    {
      assert lines[j] == lines[k..][j - k];
    }
  }

  /** A turn of the scanner loop that yields imp and stops before line next. */
  lemma ParseLinesTake(lines: seq<string>, k: nat, imp: Import, next: nat)
    requires k < |lines| && TakeImport(lines, k, []) == Ok(Taken(imp, next))
    ensures ParseLines(lines, k) == Prepend([imp], ParseLines(lines, next))
  {
  }

  /** A turn of the scanner loop over a chunk yields the chunk's import. */
  lemma TakeChunk(lines: seq<string>, k: nat, c: seq<string>, rest: seq<string>, imp: Import)
    requires k <= |lines| && lines[k..] == c + rest && IsChunk(c, imp)
    ensures TakeImport(lines, k, []) == Ok(Taken(imp, k + |c|))
  {
    var m := k + |c| - 1;
    ChunkAt(lines, k, c, rest);
    TakeImportAt(lines, k, [], m);
    assert [] + CommentsOf(lines[k..m]) == imp.preComments;
  }

  /** A turn of the scanner loop over the first of the chunks. */
  lemma TakeFirstChunk(lines: seq<string>, k: nat, chunks: seq<seq<string>>, imps: seq<Import>) returns (next: nat)
    requires k <= |lines| && lines[k..] == Concat(chunks) && EachChunk(chunks, imps) && chunks != []
    ensures k < next <= |lines| && lines[next..] == Concat(chunks[1..])
    ensures TakeImport(lines, k, []) == Ok(Taken(imps[0], next))
    ensures EachChunk(chunks[1..], imps[1..])
  {
    next := k + |chunks[0]|;
    ConcatFirst(lines, k, chunks);
    TakeChunk(lines, k, chunks[0], Concat(chunks[1..]), imps[0]);
  }

  /** The lines from k on, split into chunks: the first chunk, then the rest. */
  lemma ConcatFirst(lines: seq<string>, k: nat, chunks: seq<seq<string>>)
    requires k <= |lines| && lines[k..] == Concat(chunks) && chunks != []
    ensures k + |chunks[0]| <= |lines|
    ensures lines[k..] == chunks[0] + Concat(chunks[1..])
    ensures lines[k + |chunks[0]|..] == Concat(chunks[1..])
  {
    assert lines[k..][|chunks[0]|..] == lines[k + |chunks[0]|..];
  }

  /** A turn that yields imp, then the imports after it. */
  lemma ParseLinesTakeOk(lines: seq<string>, k: nat, imp: Import, next: nat, imps: seq<Import>)
    requires k < |lines| && TakeImport(lines, k, []) == Ok(Taken(imp, next))
    requires ParseLines(lines, next) == Ok(imps)
    ensures ParseLines(lines, k) == Ok([imp] + imps)
  {
  }

  /** The scanner loop from line k yields exactly the imports of any split of
      the lines from k on into chunks. */
  lemma {:induction false} ParseChunks(lines: seq<string>, k: nat, chunks: seq<seq<string>>, imps: seq<Import>)
    requires k <= |lines| && lines[k..] == Concat(chunks) && EachChunk(chunks, imps)
    ensures ParseLines(lines, k) == Ok(imps)
    decreases |chunks|
  {
    if chunks == [] {
      assert |lines[k..]| == 0 && imps == [];
    } else {
      var next := TakeFirstChunk(lines, k, chunks, imps);
      ParseChunks(lines, next, chunks[1..], imps[1..]);
      ParseLinesTakeOk(lines, k, imps[0], next, imps[1..]);
      HeadTail(imps);
    }
  }

  /** A successful scanner loop splits the lines from k on into chunks, one
      per import it yields. */
  lemma {:induction false} ChunksOfParse(lines: seq<string>, k: nat, imps: seq<Import>) returns (chunks: seq<seq<string>>)
    requires k <= |lines| && ParseLines(lines, k) == Ok(imps)
    ensures Concat(chunks) == lines[k..] && EachChunk(chunks, imps)
    decreases |lines| - k
  {
    if k == |lines| {
      chunks := [];
      assert lines[k..] == [];
    } else {
      var c, imp, next, rest := FirstChunk(lines, k, imps);
      var tail := ChunksOfParse(lines, next, rest);
      ChunkCons(c, tail, imp, rest);
      ConcatCons(lines, k, c, tail);
      chunks := [c] + tail;
    }
  }

  /** A successful scanner loop from line k starts with a chunk: the lines up
      to its first import line. */
  lemma FirstChunk(lines: seq<string>, k: nat, imps: seq<Import>) returns (c: seq<string>, imp: Import, next: nat, rest: seq<Import>)
    requires k < |lines| && ParseLines(lines, k) == Ok(imps)
    ensures next == k + |c| <= |lines| && lines[k..next] == c && IsChunk(c, imp)
    ensures ParseLines(lines, next) == Ok(rest) && imps == [imp] + rest
  {
    var m := NextCode(lines, k);
    ParseLinesNoDangling(lines, k);
    imp := ParseLinesAt(lines, k, m);
    c := ChunkOfLines(lines, k, m, imp);
    next := k + |c|;
    rest := ParseLines(lines, next).value;
  }

  /** A chunk of the lines from k on in front of chunks of the lines after it. */
  lemma ConcatCons(lines: seq<string>, k: nat, c: seq<string>, chunks: seq<seq<string>>)
    requires k + |c| <= |lines| && lines[k..k + |c|] == c
    requires Concat(chunks) == lines[k + |c|..]
    ensures Concat([c] + chunks) == lines[k..]
  {
    assert ([c] + chunks)[1..] == chunks;
    SliceSplit(lines, k, k + |c|);
  }

  /** The lines from k on: those before m, then those from m on. */
  lemma SliceSplit<T>(xs: seq<T>, k: nat, m: nat)
    requires k <= m <= |xs|
    ensures xs[k..] == xs[k..m] + xs[m..]
  {
  }

  /** Lines k to m, the first import line at m, make a chunk. */
  lemma ChunkOfLines(lines: seq<string>, k: nat, m: nat, imp: Import) returns (c: seq<string>)
    requires k <= m < |lines|
    requires forall j :: k <= j < m ==> Skipped(lines[j])
    requires !Skipped(lines[m])
    requires imp.preComments == CommentsOf(lines[k..m])
    requires ParseImportLine(lines[m], imp.preComments) == Ok(imp)
    ensures k + |c| == m + 1 && lines[k..k + |c|] == c && IsChunk(c, imp)
  {
    c := lines[k..m + 1];
    assert c[..|c| - 1] == lines[k..m];
    assert c[|c| - 1] == lines[m];
    forall j | 0 <= j < |c| - 1
      ensures Skipped(c[j])
    {
      assert c[j] == lines[k + j];
    }
  }

  /** A chunk in front of others. */
  lemma ChunkCons(c: seq<string>, chunks: seq<seq<string>>, imp: Import, imps: seq<Import>)
    requires IsChunk(c, imp)
    ensures EachChunk(chunks, imps) ==> EachChunk([c] + chunks, [imp] + imps)
  {
    if EachChunk(chunks, imps) {
      ChunkConsEach(c, chunks, imp, imps);
    }
  }

  lemma ChunkConsEach(c: seq<string>, chunks: seq<seq<string>>, imp: Import, imps: seq<Import>)
    requires IsChunk(c, imp) && EachChunk(chunks, imps)
    ensures EachChunk([c] + chunks, [imp] + imps)
  {
    assert ([c] + chunks)[1..] == chunks;
    assert ([imp] + imps)[1..] == imps;
  }

  /** The parser's outcome on a block, determined: it yields imps exactly when
      the block's lines split into chunks, each yielding the import beside it. */
  lemma ParseSectionChunks(section: string, imps: seq<Import>)
    ensures ParseSection(section) == Ok(imps) <==>
      exists chunks :: Concat(chunks) == ScanLines(section) && EachChunk(chunks, imps)
  {
    var lines := ScanLines(section);
    assert lines[0..] == lines;
    if ParseSection(section) == Ok(imps) {
      var chunks := ChunksOfParse(lines, 0, imps);
    }
    if exists chunks :: Concat(chunks) == lines && EachChunk(chunks, imps) {
      var chunks :| Concat(chunks) == lines && EachChunk(chunks, imps);
      ParseChunks(lines, 0, chunks, imps);
    }
  }

  // ---------------------------------------------------------------------------
  // When the parser fails

  /** Every import line from k on parses on its own. */
  predicate AllParse(lines: seq<string>, k: nat) {
    forall j :: k <= j < |lines| && !Skipped(lines[j]) ==> ParseImportLine(lines[j], []).Ok?
  }

  /** The lines from k on end in a blank or comment line. */
  predicate EndsSkipped(lines: seq<string>, k: nat) {
    k < |lines| && Skipped(lines[|lines| - 1])
  }

  /** Whether an import line parses, and with which error, does not depend on
      the comments above it. */
  lemma ParseImportLineAnyPre(line: string, pre: seq<string>)
    ensures ParseImportLine(line, pre).Ok? == ParseImportLine(line, []).Ok?
    ensures ParseImportLine(line, pre).Err? ==> ParseImportLine(line, pre) == ParseImportLine(line, [])
  {
  }

  /** An import line that parses, after blank and comment lines, leaves the
      question to the lines after it. */
  lemma AllParseStep(lines: seq<string>, k: nat, m: nat)
    requires k <= m < |lines|
    requires forall j :: k <= j < m ==> Skipped(lines[j])
    requires ParseImportLine(lines[m], []).Ok?
    ensures AllParse(lines, k) == AllParse(lines, m + 1)
  {
  }

  /** The scanner loop from line k succeeds exactly when every import line
      parses and the lines do not end in a blank or comment line; it fails
      with the dangling-comment error exactly when every import line parses
      but the lines do end in one. */
  lemma {:induction false} ParseLinesOutcome(lines: seq<string>, k: nat)
    requires k <= |lines|
    ensures ParseLines(lines, k).Ok? <==> AllParse(lines, k) && !EndsSkipped(lines, k)
    ensures ParseLines(lines, k) == Err(DanglingComment) <==> AllParse(lines, k) && EndsSkipped(lines, k)
    decreases |lines| - k
  {
    if k < |lines| {
      var m := NextCode(lines, k);
      if m == |lines| {
        OutcomeNoCode(lines, k);
      } else if ParseImportLine(lines[m], []).Ok? {
        ParseLinesOutcome(lines, m + 1);
        OutcomeGoodLine(lines, k, m);
      } else {
        OutcomeBadLine(lines, k, m);
      }
    }
  }

  /** Blank and comment lines only, up to the end: the dangling-comment error. */
  lemma OutcomeNoCode(lines: seq<string>, k: nat)
    requires k < |lines| && NextCode(lines, k) == |lines|
    ensures ParseLines(lines, k) == Err(DanglingComment)
    ensures AllParse(lines, k) && EndsSkipped(lines, k)
  {
    TakeImportDangling(lines, k, []);
  }

  /** A first import line that does not parse: its own error. */
  lemma OutcomeBadLine(lines: seq<string>, k: nat, m: nat)
    requires k <= m < |lines| && m == NextCode(lines, k)
    requires ParseImportLine(lines[m], []).Err?
    ensures ParseLines(lines, k).Err? && ParseLines(lines, k) != Err(DanglingComment)
    ensures !AllParse(lines, k)
  {
    var pre := CommentsOf(lines[k..m]);
    TakeImportAt(lines, k, [], m);
    assert [] + pre == pre;
    ParseImportLineAnyPre(lines[m], pre);
    ParseImportLineSpec(lines[m], pre);
  }

  /** A first import line that parses leaves every question to the lines
      after it. */
  lemma OutcomeGoodLine(lines: seq<string>, k: nat, m: nat)
    requires k <= m < |lines| && m == NextCode(lines, k)
    requires ParseImportLine(lines[m], []).Ok?
    ensures ParseLines(lines, k).Ok? == ParseLines(lines, m + 1).Ok?
    ensures (ParseLines(lines, k) == Err(DanglingComment)) == (ParseLines(lines, m + 1) == Err(DanglingComment))
    ensures AllParse(lines, k) == AllParse(lines, m + 1)
    ensures EndsSkipped(lines, k) == EndsSkipped(lines, m + 1)
  {
    var pre := CommentsOf(lines[k..m]);
    TakeImportAt(lines, k, [], m);
    assert [] + pre == pre;
    ParseImportLineAnyPre(lines[m], pre);
    AllParseStep(lines, k, m);
    OutcomeStep(lines, k, m);
  }

  /** When an import line does not parse and every import line before it
      does, the block fails with that line's own error: an invalid line or an
      unquotable path, carrying the line as it was read. */
  lemma {:induction false} FirstBadLine(lines: seq<string>, k: nat, m: nat)
    requires k <= m < |lines| && !Skipped(lines[m]) && ParseImportLine(lines[m], []).Err?
    requires forall j :: k <= j < m && !Skipped(lines[j]) ==> ParseImportLine(lines[j], []).Ok?
    ensures ParseLines(lines, k) == Err(ParseImportLine(lines[m], []).error)
    decreases m - k
  {
    var n := NextCode(lines, k);
    var pre := CommentsOf(lines[k..n]);
    TakeImportAt(lines, k, [], n);
    assert [] + pre == pre;
    ParseImportLineAnyPre(lines[n], pre);
    if n < m {
      FirstBadLine(lines, n + 1, m);
    }
  }

  /** The outcome from line k is the outcome after its first import line,
      when that line parses. */
  lemma OutcomeStep(lines: seq<string>, k: nat, m: nat)
    requires k <= m < |lines| && !Skipped(lines[m])
    requires TakeImport(lines, k, []).Ok? && TakeImport(lines, k, []).value.next == m + 1
    ensures ParseLines(lines, k).Ok? == ParseLines(lines, m + 1).Ok?
    ensures (ParseLines(lines, k) == Err(DanglingComment)) == (ParseLines(lines, m + 1) == Err(DanglingComment))
    ensures EndsSkipped(lines, k) == EndsSkipped(lines, m + 1)
  {
  }

  /** A block whose last line is blank or a comment is refused, whatever its
      import lines: the comment loop runs off the end of the input. */
  lemma TrailingBlankFails(section: string)
    requires var lines := ScanLines(section); lines != [] && Skipped(lines[|lines| - 1])
    ensures ParseSection(section).Err?
  {
    ParseLinesOutcome(ScanLines(section), 0);
  }

  // ---------------------------------------------------------------------------
  // The scanner loop as the source writes it

  /** One turn of the scanner loop from line k: the comment loop, then the
      import line that ends it. On success, the record and the index of the
      line after the import line. */
  method ReadImport(lines: seq<string>, k: nat) returns (res: Result<Import, ParseError>, next: nat)
    requires k < |lines|
    ensures TakeImport(lines, k, []) == Finish(res, next)
  {
    next := k;
    var pre: seq<string> := [];
    var text := TrimSpace(lines[next]);
    while IsCommentOrBlank(text)
      invariant k <= next < |lines|
      invariant text == TrimSpace(lines[next])
      invariant TakeImport(lines, k, []) == TakeImport(lines, next, pre)
      decreases |lines| - next
    {
      if text != "" {
        pre := pre + [text];
      }
      next := next + 1;
      if next == |lines| {
        return Err(DanglingComment), next;
      }
      text := TrimSpace(lines[next]);
    }
    res := ParseImportLine(lines[next], pre);
    next := next + 1;
  }

  /** Appending records one batch after another. */
  lemma PrependPrepend(xs: seq<Import>, ys: seq<Import>, r: Result<seq<Import>, ParseError>)
    ensures Prepend(xs, Prepend(ys, r)) == Prepend(xs + ys, r)
  {
    if r.Ok? {
      assert xs + (ys + r.value) == (xs + ys) + r.value;
    }
  }

  /** Records in front of a successful outcome. */
  lemma PrependOk(xs: seq<Import>, ys: seq<Import>, r: Result<seq<Import>, ParseError>)
    requires r == Ok(ys)
    ensures Prepend(xs, r) == Ok(xs + ys)
  {
  }

  /** Appending no records. */
  lemma PrependNothing(r: Result<seq<Import>, ParseError>)
    ensures Prepend([], r) == r
  {
    if r.Ok? {
      assert [] + r.value == r.value;
    }
  }

  /** sortImportSection up to the sort: a scanner over the block's lines, an
      inner loop that gathers comment lines, and three error exits. */
  method ParseImports(section: string) returns (res: Result<seq<Import>, ParseError>)
    ensures res == ParseSection(section)
  {
    var lines := ScanLines(section);
    var imps: seq<Import> := [];
    var k := 0;
    PrependNothing(ParseLines(lines, 0));
    while k < |lines|
      invariant 0 <= k <= |lines|
      invariant ParseLines(lines, 0) == Prepend(imps, ParseLines(lines, k))
      decreases |lines| - k
    {
      var parsed, next := ReadImport(lines, k);
      if parsed.Err? {
        return Err(parsed.error);
      }
      PrependPrepend(imps, [parsed.value], ParseLines(lines, next));
      imps := imps + [parsed.value];
      k := next;
    }
    assert imps + [] == imps;
    return Ok(imps);
  }
}
