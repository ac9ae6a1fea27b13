/** The second half of sortImportSection: writing the sorted imports back out,
    a blank line between tiers, and the buffer the text goes to. */
module Render {
  import opened Types
  import opened Text
  import opened Grouping
  import opened Parser

  /** A bytes.Buffer, or any io.Writer the imports are written to: the text
      written so far. */
  class Buffer {
    var contents: string

    constructor ()
      ensures contents == ""
    {
      contents := "";
    }

    /** Appends s. */
    method Write(s: string)
      modifies this
      ensures contents == old(contents) + s
    {
      contents := contents + s;
    }
  }

  // ---------------------------------------------------------------------------
  // What the render loop writes

  /** The import line written for x by the format "%s %q %s": local name,
      quoted path and trailing comment, with both spaces always present. */
  function ImportLine(x: Import): string {
    x.ident + " " + Quote(x.path) + " " + x.postComment
  }

  /** The lines written for x once the tier is settled: its comments, then its
      import line. */
  function Chunk(x: Import): seq<string> {
    x.preComments + [ImportLine(x)]
  }

  /** The blank line written when the tier changes from g to h. */
  function Separator(g: int, h: int): seq<string> {
    if h != g then [""] else []
  }

  /** The lines the render loop writes for xs when the last tier it wrote is g. */
  function RenderedLines(prefix: string, xs: seq<Import>, g: int): seq<string> {
    if xs == [] then []
    else
      var h := Group(prefix, xs[0].path);
      Separator(g, h) + Chunk(xs[0]) + RenderedLines(prefix, xs[1..], h)
  }

  /** The text the render loop writes for xs: it starts from tier 0. */
  function Rendered(prefix: string, xs: seq<Import>): string {
    Unlines(RenderedLines(prefix, xs, 0))
  }

  // ---------------------------------------------------------------------------
  // The render loop

  /** The joined lines of a concatenation. */
  lemma {:induction false} UnlinesAppend(a: seq<string>, b: seq<string>)
    ensures Unlines(a + b) == Unlines(a) + Unlines(b)
    decreases |a|
  {
    if a != [] {
      UnlinesAppend(a[1..], b);
      assert (a + b)[0] == a[0] && (a + b)[1..] == a[1..] + b;
      assert Unlines(a + b) == a[0] + "\n" + (Unlines(a[1..]) + Unlines(b));
    } else {
      assert a + b == b;
    }
  }

  /** The joined lines of a sequence, one line longer. */
  lemma UnlinesSnoc(a: seq<string>, s: string)
    ensures Unlines(a + [s]) == Unlines(a) + s + "\n"
  {
    UnlinesAppend(a, [s]);
  }

  /** The lines from import i on: its separator and chunk, then the rest. */
  lemma RenderedFrom(prefix: string, xs: seq<Import>, i: nat, g: int)
    requires i < |xs|
    ensures var h := Group(prefix, xs[i].path);
      Unlines(RenderedLines(prefix, xs[i..], g))
        == Unlines(Separator(g, h)) + Unlines(Chunk(xs[i])) + Unlines(RenderedLines(prefix, xs[i + 1..], h))
  {
    var h := Group(prefix, xs[i].path);
    assert xs[i..][1..] == xs[i + 1..];
    UnlinesAppend(Separator(g, h) + Chunk(xs[i]), RenderedLines(prefix, xs[i + 1..], h));
    UnlinesAppend(Separator(g, h), Chunk(xs[i]));
  }

  lemma ConcatAssoc(a: string, b: string, c: string, d: string)
    ensures a + b + c + d == a + (b + c + d)
  {
  }

  /** The emit loop of sortImportSection: for each import, a blank line when
      its tier differs from the last one written (0 at the start), then its
      comment lines, then its import line. */
  method WriteImports(prefix: string, xs: seq<Import>, w: Buffer)
    modifies w
    ensures w.contents == old(w.contents) + Rendered(prefix, xs)
  {
    var g := 0;
    var i := 0;
    while i < |xs|
      invariant 0 <= i <= |xs|
      invariant old(w.contents) + Rendered(prefix, xs)
                == w.contents + Unlines(RenderedLines(prefix, xs[i..], g))
    {
      var x := xs[i];
      var h := Group(prefix, x.path);
      RenderedFrom(prefix, xs, i, g);
      ghost var start := w.contents;
      ghost var sep, chunk := Unlines(Separator(g, h)), Unlines(Chunk(x));
      ghost var rest := Unlines(RenderedLines(prefix, xs[i + 1..], h));
      if h != g {
        w.Write("\n");
      }
      assert w.contents == start + sep;
      g := h;
      WriteChunk(x, w);
      ConcatAssoc(start, sep, chunk, rest);
      i := i + 1;
    }
    assert xs[|xs|..] == [];
  }

  /** The body of the emit loop after the tier check: the comment lines one by
      one, then the import line. */
  method WriteChunk(x: Import, w: Buffer)
    modifies w
    ensures w.contents == old(w.contents) + Unlines(Chunk(x))
  {
    var j := 0;
    while j < |x.preComments|
      invariant 0 <= j <= |x.preComments|
      invariant w.contents == old(w.contents) + Unlines(x.preComments[..j])
    {
      UnlinesSnoc(x.preComments[..j], x.preComments[j]);
      assert x.preComments[..j + 1] == x.preComments[..j] + [x.preComments[j]];
      w.Write(x.preComments[j] + "\n");
      j := j + 1;
    }
    assert x.preComments[..j] == x.preComments;
    UnlinesSnoc(x.preComments, ImportLine(x));
    w.Write(x.ident + " " + Quote(x.path) + " " + x.postComment + "\n");
  }

  // ---------------------------------------------------------------------------
  // Reading the output back

  /** No "//" inside s. */
  predicate NoCommentMark(s: string) {
    forall i :: 0 <= i < |s| - 1 ==> !(s[i] == '/' && s[i + 1] == '/')
  }

  /** A comment line as the parser keeps it: it starts with "//", does not end
      in white space and is a single line. */
  predicate GoodComment(c: string) {
    HasPrefix(c, "//") && !IsSpace(c[|c| - 1]) && '\n' !in c
  }

  /** An import the render loop writes in a form the parser reads back as the
      same import: comments as the parser keeps them, a local name that is one
      word, a path that is a plain string without white space, and no "//" in
      the name or the path, where the parser would split the line early. */
  predicate WellFormed(x: Import) {
    && (forall i :: 0 <= i < |x.preComments| ==> GoodComment(x.preComments[i]))
    && (x.postComment == "" || GoodComment(x.postComment))
    && (x.ident == "" || IsWord(x.ident)) && NoCommentMark(x.ident)
    && Plain(x.path) && NoSpace(x.path) && NoCommentMark(x.path)
  }

  predicate AllWellFormed(xs: seq<Import>) {
    forall i :: 0 <= i < |xs| ==> WellFormed(xs[i])
  }

  /** Two texts without "//" joined where no "//" can form. */
  lemma NoMarkJoin(a: string, b: string)
    requires NoCommentMark(a) && NoCommentMark(b)
    requires a == [] || b == [] || a[|a| - 1] != '/' || b[0] != '/'
    ensures NoCommentMark(a + b)
  {
    var s := a + b;
    forall i | 0 <= i < |s| - 1
      ensures !(s[i] == '/' && s[i + 1] == '/')
    {
      if i + 1 < |a| {
        assert s[i] == a[i] && s[i + 1] == a[i + 1];
      } else if i >= |a| {
        assert s[i] == b[i - |a|] && s[i + 1] == b[i + 1 - |a|];
      }
    }
  }

  /** A kept comment line is a comment line of its own. */
  lemma GoodCommentSkipped(c: string)
    requires GoodComment(c)
    ensures TrimSpace(c) == c && Skipped(c) && LineComments(c) == [c]
  {
    assert c[0] == c[..2][0];
    assert "" + c + "" == c;
    TrimSpacePadded("", c, "");
  }

  /** Kept comment lines are their own comments. */
  lemma {:induction false} CommentsOfGood(cs: seq<string>)
    requires forall i :: 0 <= i < |cs| ==> GoodComment(cs[i])
    ensures CommentsOf(cs) == cs
    decreases |cs|
  {
    if cs != [] {
      GoodCommentSkipped(cs[0]);
      CommentsOfGood(cs[1..]);
      HeadTail(cs);
    }
  }

  /** The quoted path holds no "//". */
  lemma QuotedNoMark(path: string)
    requires NoCommentMark(path)
    ensures NoCommentMark(Quote(path))
  {
    NoMarkJoin("\"", path);
    NoMarkJoin("\"" + path, "\"");
  }

  /** The text of an import line before its comment. */
  function Lead(x: Import): string {
    if x.ident == "" then Quote(x.path) else x.ident + " " + Quote(x.path)
  }

  /** The fields before the comment of an import line. */
  function LeadFields(x: Import): seq<string> {
    if x.ident == "" then [Quote(x.path)] else [x.ident, Quote(x.path)]
  }

  /** The text before the comment is the fields joined by a space, it holds no
      "//", and it starts and ends with a character that is not white space. */
  lemma LeadShape(x: Import)
    requires WellFormed(x)
    ensures Lead(x) == Unwords(LeadFields(x))
    ensures forall i :: 0 <= i < |LeadFields(x)| ==> IsWord(LeadFields(x)[i])
    ensures NoCommentMark(Lead(x))
    ensures Lead(x) != [] && !IsSpace(Lead(x)[0]) && Lead(x)[|Lead(x)| - 1] == '"'
    ensures !HasPrefix(Lead(x), "//")
  {
    var q := Quote(x.path);
    QuotedNoMark(x.path);
    assert IsWord(q) by {
      forall i | 0 <= i < |q|
        ensures !IsSpace(q[i])
      {
        if 0 < i < |q| - 1 {
          assert q[i] == x.path[i - 1];
        }
      }
    }
    if x.ident != "" {
      NoMarkJoin(x.ident, " ");
      NoMarkJoin(x.ident + " ", q);
      assert Unwords([x.ident, q]) == x.ident + " " + Unwords([q]);
      var l := Lead(x);
      assert l[0] == x.ident[0];
      if |x.ident| > 1 {
        assert l[1] == x.ident[1];
      } else {
        assert l[1] == ' ';
      }
      assert l[..2][0] == l[0] && l[..2][1] == l[1];
    } else {
      assert Lead(x)[..2][0] == '"';
    }
  }

  /** The text of an import line after trimming. */
  function Trimmed(x: Import): string {
    if x.postComment == "" then Lead(x) else Lead(x) + " " + x.postComment
  }

  /** An import line cut into the white space trimming removes and the text
      between. */
  lemma LinePieces(ident: string, q: string, c: string)
    ensures ident + " " + q + " " + c
      == (if ident == "" then " " else "")
         + ((if ident == "" then q else ident + " " + q) + (if c == "" then "" else " " + c))
         + (if c == "" then " " else "")
  {
    if ident == "" {
      assert ident + " " == " ";
    }
    if c == "" {
      assert ident + " " + q + " " + c == ident + " " + q + " ";
    }
  }

  /** Trimming the import line leaves the text before the comment, then a space
      and the comment when there is one. */
  lemma TrimImportLine(x: Import)
    requires WellFormed(x)
    ensures TrimSpace(ImportLine(x)) == Trimmed(x)
  {
    LeadShape(x);
    var a := if x.ident == "" then " " else "";
    var b := if x.postComment == "" then " " else "";
    var core := Trimmed(x);
    LinePieces(x.ident, Quote(x.path), x.postComment);
    assert ImportLine(x) == a + core + b;
    assert core[0] == Lead(x)[0];
    if x.postComment != "" {
      assert core[|core| - 1] == x.postComment[|x.postComment| - 1];
    } else {
      assert core[|core| - 1] == Lead(x)[|Lead(x)| - 1];
    }
    TrimSpacePadded(a, core, b);
  }

  /** The first "//" of a trimmed import line starts its comment. */
  lemma SplitImportLine(x: Import)
    requires WellFormed(x)
    ensures CodePart(Trimmed(x)) == Lead(x) + (if x.postComment == "" then "" else " ")
    ensures CommentPart(Trimmed(x)) == x.postComment
  {
    LeadShape(x);
    var t := Trimmed(x);
    IndexSpec(t, "//");
    if x.postComment == "" {
      forall p | 0 <= p
        ensures !OccursAt(t, "//", p)
      {
        if p + 2 <= |t| {
          assert t[p..p + 2][0] == t[p] && t[p..p + 2][1] == t[p + 1];
        }
      }
    } else {
      var c := x.postComment;
      var code := Lead(x) + " ";
      NoMarkJoin(Lead(x), " ");
      assert t == code + c;
      assert OccursAt(t, "//", |code|) by {
        assert t[|code|..|code| + 2] == c[..2];
      }
      forall p | 0 <= p < |code|
        ensures !OccursAt(t, "//", p)
      {
        assert t[p..p + 2][0] == t[p] && t[p..p + 2][1] == t[p + 1];
        if p + 1 < |code| {
          assert t[p] == code[p] && t[p + 1] == code[p + 1];
        } else {
          assert t[p] == ' ';
        }
      }
      assert Index(t, "//") == |code|;
      assert t[..|code|] == code && t[|code|..] == c;
    }
  }

  /** The parser reads a well-formed import's line back as that import, with
      the comments given to it. */
  lemma ParseImportLineBack(x: Import, pre: seq<string>)
    requires WellFormed(x)
    ensures !Skipped(ImportLine(x))
    ensures ParseImportLine(ImportLine(x), pre) == Ok(x.(preComments := pre))
  {
    LeadShape(x);
    TrimImportLine(x);
    SplitImportLine(x);
    var pad := if x.postComment == "" then "" else " ";
    FieldsUnwords(LeadFields(x), pad);
    UnquoteQuote(x.path);
    var t := Trimmed(x);
    assert t[..|Lead(x)|] == Lead(x);
    assert t[..2] == Lead(x)[..2];
  }

  /** The rendered lines cut into one chunk per import: the blank line before
      it if any, its comments and its import line. */
  function RenderChunks(prefix: string, xs: seq<Import>, g: int): seq<seq<string>> {
    if xs == [] then []
    else
      var h := Group(prefix, xs[0].path);
      [Separator(g, h) + Chunk(xs[0])] + RenderChunks(prefix, xs[1..], h)
  }

  lemma {:induction false} ConcatRenderChunks(prefix: string, xs: seq<Import>, g: int)
    ensures Concat(RenderChunks(prefix, xs, g)) == RenderedLines(prefix, xs, g)
    decreases |xs|
  {
    if xs != [] {
      var h := Group(prefix, xs[0].path);
      ConcatRenderChunks(prefix, xs[1..], h);
      var cs := RenderChunks(prefix, xs, g);
      assert cs[0] == Separator(g, h) + Chunk(xs[0]);
      assert cs[1..] == RenderChunks(prefix, xs[1..], h);
    }
  }

  /** A blank line is a line the comment loop skips, and no comment. */
  lemma BlankSkipped()
    ensures TrimSpace("") == "" && Skipped("") && LineComments("") == []
  {
  }

  /** The blank line before an import adds no comment. */
  lemma CommentsOfSeparator(g: int, h: int, cs: seq<string>)
    ensures CommentsOf(Separator(g, h) + cs) == CommentsOf(cs)
  {
    if h != g {
      BlankSkipped();
      FlatMapCons(LineComments, [""] + cs);
      assert ([""] + cs)[1..] == cs;
    } else {
      assert Separator(g, h) + cs == cs;
    }
  }

  /** What the render loop writes for a well-formed import is a chunk the
      parser reads back as that import. */
  lemma RenderedChunk(g: int, h: int, x: Import)
    requires WellFormed(x)
    ensures IsChunk(Separator(g, h) + Chunk(x), x)
  {
    var sep := Separator(g, h);
    var body := sep + x.preComments;
    var c := sep + Chunk(x);
    assert c == body + [ImportLine(x)];
    assert c[|c| - 1] == ImportLine(x) && c[..|c| - 1] == body;
    ParseImportLineBack(x, x.preComments);
    assert x.(preComments := x.preComments) == x;
    BlankSkipped();
    forall j | 0 <= j < |body|
      ensures Skipped(body[j])
    {
      if j < |sep| {
        assert body[j] == "";
      } else {
        assert body[j] == x.preComments[j - |sep|];
        GoodCommentSkipped(x.preComments[j - |sep|]);
      }
    }
    CommentsOfSeparator(g, h, x.preComments);
    CommentsOfGood(x.preComments);
  }

  lemma {:induction false} EachRenderedChunk(prefix: string, xs: seq<Import>, g: int)
    requires AllWellFormed(xs)
    ensures EachChunk(RenderChunks(prefix, xs, g), xs)
    decreases |xs|
  {
    if xs != [] {
      var h := Group(prefix, xs[0].path);
      RenderedChunk(g, h, xs[0]);
      EachRenderedChunk(prefix, xs[1..], h);
      var cs := RenderChunks(prefix, xs, g);
      assert cs[0] == Separator(g, h) + Chunk(xs[0]);
      assert cs[1..] == RenderChunks(prefix, xs[1..], h);
    }
  }

  /** No line holds a newline. */
  predicate OneLineEach(ls: seq<string>) {
    forall i :: 0 <= i < |ls| ==> '\n' !in ls[i]
  }

  lemma OneLineEachAppend(a: seq<string>, b: seq<string>)
    requires OneLineEach(a) && OneLineEach(b)
    ensures OneLineEach(a + b)
  {
    forall i | 0 <= i < |a + b|
      ensures '\n' !in (a + b)[i]
    {
      if i < |a| {
        assert (a + b)[i] == a[i];
      } else {
        assert (a + b)[i] == b[i - |a|];
      }
    }
  }

  /** A well-formed import's lines hold no newline. */
  lemma ChunkOneLine(x: Import)
    requires WellFormed(x)
    ensures OneLineEach(Chunk(x))
  {
    assert '\n' !in x.ident by {
      if x.ident != "" {
        assert forall i :: 0 <= i < |x.ident| ==> x.ident[i] != '\n';
      }
    }
    assert '\n' !in x.path by {
      assert forall i :: 0 <= i < |x.path| ==> x.path[i] != '\n';
    }
    assert '\n' !in ImportLine(x);
    forall i | 0 <= i < |Chunk(x)|
      ensures '\n' !in Chunk(x)[i]
    {
      if i < |x.preComments| {
        assert Chunk(x)[i] == x.preComments[i];
      }
    }
  }

  lemma {:induction false} RenderedOneLine(prefix: string, xs: seq<Import>, g: int)
    requires AllWellFormed(xs)
    ensures OneLineEach(RenderedLines(prefix, xs, g))
    decreases |xs|
  {
    if xs != [] {
      var h := Group(prefix, xs[0].path);
      RenderedOneLine(prefix, xs[1..], h);
      ChunkOneLine(xs[0]);
      OneLineEachAppend(Separator(g, h), Chunk(xs[0]));
      OneLineEachAppend(Separator(g, h) + Chunk(xs[0]), RenderedLines(prefix, xs[1..], h));
    }
  }

  /** The parser reads what the render loop writes back as the same imports,
      in the same order, whatever the tiers: parsing inverts rendering on
      well-formed imports. */
  lemma RenderThenParse(prefix: string, xs: seq<Import>)
    requires AllWellFormed(xs)
    ensures ParseSection(Rendered(prefix, xs)) == Ok(xs)
  {
    var ls := RenderedLines(prefix, xs, 0);
    RenderedOneLine(prefix, xs, 0);
    ScanLinesUnlines(ls);
    ConcatRenderChunks(prefix, xs, 0);
    EachRenderedChunk(prefix, xs, 0);
    var chunks := RenderChunks(prefix, xs, 0);
    assert Concat(chunks) == ScanLines(Rendered(prefix, xs)) && EachChunk(chunks, xs);
    ParseSectionChunks(Rendered(prefix, xs), xs);
  }

  /** The output starts with a blank line exactly when the first import is not
      in tier 0: the last tier written starts out as 0. */
  lemma LeadingBlankLine(prefix: string, xs: seq<Import>)
    requires xs != [] && WellFormed(xs[0])
    ensures var out := Rendered(prefix, xs);
      out != [] && (out[0] == '\n' <==> Group(prefix, xs[0].path) != 0)
  {
    var h := Group(prefix, xs[0].path);
    var x := xs[0];
    var ls := RenderedLines(prefix, xs, 0);
    var first := if h != 0 then "" else if x.preComments != [] then x.preComments[0] else ImportLine(x);
    assert ls[0] == first;
    assert Unlines(ls) == first + "\n" + Unlines(ls[1..]);
    if h == 0 {
      if x.preComments != [] {
        assert first[0] == first[..2][0];
      } else {
        LeadShape(x);
        assert first[0] == (if x.ident == "" then ' ' else x.ident[0]);
      }
    }
  }
}
