/** What the parser yields can be written back: every import it reads from a
    block is well formed, and is made of the block's own characters. */
module Readback {
  import opened Types
  import opened Text
  import opened Parser
  import opened Grouping
  import opened Render

  // ---------------------------------------------------------------------------
  // Slices of slices

  /** w appears in s at position i. */
  predicate InfixAt(w: string, s: string, i: nat) {
    i + |w| <= |s| && s[i..i + |w|] == w
  }

  /** w appears somewhere in s. */
  ghost predicate Infix(w: string, s: string) {
    exists i: nat :: InfixAt(w, s, i)
  }

  lemma SliceInfix(s: string, i: nat, j: nat)
    requires i <= j <= |s|
    ensures Infix(s[i..j], s)
  {
    assert InfixAt(s[i..j], s, i);
  }

  lemma InfixTrans(a: string, b: string, c: string)
    requires Infix(a, b) && Infix(b, c)
    ensures Infix(a, c)
  {
    var i: nat :| InfixAt(a, b, i);
    var j: nat :| InfixAt(b, c, j);
    forall k | 0 <= k < |a|
      ensures a[k] == c[j + i + k]
    {
      assert a[k] == b[i + k];
      assert b[i + k] == c[j + i + k];
    }
    assert a == c[j + i..j + i + |a|];
    assert InfixAt(a, c, j + i);
  }

  /** What holds of every character or every pair of neighbours of s holds of
      the text that appears in it. */
  lemma InfixKeeps(w: string, s: string, ch: char)
    requires Infix(w, s)
    ensures ch !in s ==> ch !in w
    ensures NoCommentMark(s) ==> NoCommentMark(w)
    ensures NoSpace(s) ==> NoSpace(w)
  {
    var i: nat :| InfixAt(w, s, i);
    forall k | 0 <= k < |w|
      ensures w[k] == s[i + k]
    {
      assert w[k] == s[i..i + |w|][k];
    }
  }

  // ---------------------------------------------------------------------------
  // The pieces of a line

  lemma TrimSpaceInfix(s: string)
    ensures Infix(TrimSpace(s), s)
  {
    TrimSpaceSpec(s);
    var r := TrimSpace(s);
    var i :| 0 <= i <= |s| - |r| && r == s[i..i + |r|] && AllSpace(s[..i]) && AllSpace(s[i + |r|..]);
    assert InfixAt(r, s, i);
  }

  lemma {:induction false} FieldsInfix(s: string)
    ensures forall k :: 0 <= k < |Fields(s)| ==> Infix(Fields(s)[k], s)
    decreases |s|
  {
    var t := TrimLeft(s);
    if t != [] {
      TrimLeftSpec(s);
      var n := TokenLength(t);
      FieldsInfix(t[n..]);
      var r := Fields(s);
      var d := |s| - |t|;
      assert r == [t[..n]] + Fields(t[n..]);
      forall k | 0 <= k < |r|
        ensures Infix(r[k], s)
      {
        if k == 0 {
          assert t[..n] == s[d..d + n];
          SliceInfix(s, d, d + n);
        } else {
          assert r[k] == Fields(t[n..])[k - 1];
          assert Infix(Fields(t[n..])[k - 1], t[n..]);
          assert t[n..] == s[d + n..|s|];
          SliceInfix(s, d + n, |s|);
          InfixTrans(r[k], t[n..], s);
        }
      }
    }
  }

  /** The text before the first "//" holds none. */
  lemma CodePartNoMark(t: string)
    ensures NoCommentMark(CodePart(t))
  {
    SplitComment(t);
    var code := CodePart(t);
    forall i | 0 <= i < |code| - 1
      ensures !(code[i] == '/' && code[i + 1] == '/')
    {
      assert t[i..i + 2][0] == t[i] && t[i..i + 2][1] == t[i + 1];
      assert code[i] == t[i] && code[i + 1] == t[i + 1];
      assert !OccursAt(t, "//", i);
    }
  }

  /** Both halves of a concatenation appear in it. */
  lemma ConcatInfix(a: string, b: string)
    ensures Infix(a, a + b) && Infix(b, a + b)
  {
    assert (a + b)[0..|a|] == a && (a + b)[|a|..|a + b|] == b;
    SliceInfix(a + b, 0, |a|);
    SliceInfix(a + b, |a|, |a + b|);
  }

  lemma SplitInfix(t: string)
    ensures Infix(CodePart(t), t) && Infix(CommentPart(t), t)
  {
    SplitComment(t);
    ConcatInfix(CodePart(t), CommentPart(t));
  }

  lemma UnquoteInfix(w: string)
    requires Unquote(w).Some?
    ensures Infix(Unquote(w).value, w) && Plain(Unquote(w).value)
  {
    SliceInfix(w, 1, |w| - 1);
  }

  /** The parts of a trimmed line: the code part holds no "//", the comment
      part is empty or a comment ending in no white space, and both appear in
      the line. */
  lemma LineParts(line: string)
    ensures var text := TrimSpace(line);
      var code, post := CodePart(text), CommentPart(text);
      && NoCommentMark(code) && Infix(code, line) && Infix(post, line)
      && (post == "" || (HasPrefix(post, "//") && !IsSpace(post[|post| - 1])))
  {
    var text := TrimSpace(line);
    var code, post := CodePart(text), CommentPart(text);
    TrimSpaceInfix(line);
    TrimSpaceSpec(line);
    SplitComment(text);
    SplitInfix(text);
    InfixTrans(code, text, line);
    InfixTrans(post, text, line);
    CodePartNoMark(text);
    if post != "" {
      assert post[|post| - 1] == text[|text| - 1];
    }
  }

  /** A field of a text without "//" is a word without "//" that appears in it. */
  lemma FieldFacts(code: string, k: nat)
    requires NoCommentMark(code) && k < |Fields(code)|
    ensures var f := Fields(code)[k];
      IsWord(f) && NoCommentMark(f) && Infix(f, code)
  {
    FieldsWords(code);
    FieldsInfix(code);
    InfixKeeps(Fields(code)[k], code, ' ');
  }

  /** A literal's text, without its quotes, appears in it. */
  lemma PathFacts(f: string, code: string)
    requires IsWord(f) && NoCommentMark(f) && Infix(f, code) && Unquote(f).Some?
    ensures var p := Unquote(f).value;
      Plain(p) && NoSpace(p) && NoCommentMark(p) && Infix(p, code)
  {
    UnquoteInfix(f);
    InfixTrans(Unquote(f).value, f, code);
    InfixKeeps(Unquote(f).value, f, ' ');
  }

  /** An import the parser reads from one line: its local name is empty or one
      word, its path a plain string without white space, neither holds "//",
      its trailing comment is empty or a comment ending in no white space; and
      all three appear in the line. */
  lemma ParsedLine(line: string, pre: seq<string>)
    requires ParseImportLine(line, pre).Ok?
    ensures var x := ParseImportLine(line, pre).value;
      && (x.ident == "" || IsWord(x.ident)) && NoCommentMark(x.ident)
      && Plain(x.path) && NoSpace(x.path) && NoCommentMark(x.path)
      && (x.postComment == "" || (HasPrefix(x.postComment, "//") && !IsSpace(x.postComment[|x.postComment| - 1])))
      && Infix(x.ident, line) && Infix(x.path, line) && Infix(x.postComment, line)
  {
    var x := ParseImportLine(line, pre).value;
    var code := CodePart(TrimSpace(line));
    var fields := Fields(code);
    LineParts(line);
    FieldFacts(code, |fields| - 1);
    PathFacts(fields[|fields| - 1], code);
    InfixTrans(x.path, code, line);
    if |fields| == 2 {
      FieldFacts(code, 0);
      InfixTrans(x.ident, code, line);
    } else {
      assert InfixAt(x.ident, line, 0);
    }
  }

  // ---------------------------------------------------------------------------
  // The imports of a block

  /** c occurs nowhere in x. */
  predicate FreeOf(x: Import, c: char) {
    && c !in x.ident && c !in x.path && c !in x.postComment
    && forall i :: 0 <= i < |x.preComments| ==> c !in x.preComments[i]
  }

  /** A line of a text holds no newline, and no character the text lacks. */
  lemma {:induction false} ScanLinesFree(s: string, c: char)
    ensures forall l :: l in ScanLines(s) ==> '\n' !in l && (c !in s ==> c !in l)
    decreases |s|
  {
    ScanLinesNoNewline(s);
    if s != [] {
      var i := IndexByte(s, '\n');
      IndexByteSpec(s, '\n');
      if i != -1 {
        ScanLinesFree(s[i + 1..], c);
        assert ScanLines(s) == [s[..i]] + ScanLines(s[i + 1..]);
        assert c !in s ==> c !in s[..i];
        assert c !in s ==> c !in s[i + 1..];
      }
    }
  }

  /** Whatever FlatMap yields comes from one of its inputs. */
  lemma {:induction false} FlatMapIn<T, U>(f: T -> seq<U>, xs: seq<T>, y: U)
    requires y in FlatMap(f, xs)
    ensures exists x :: x in xs && y in f(x)
    decreases |xs|
  {
    if y !in f(xs[0]) {
      FlatMapIn(f, xs[1..], y);
      var x :| x in xs[1..] && y in f(x);
      assert x in xs;
    }
  }

  /** Each comment of a record is among the comments of all records. */
  lemma {:induction false} AllCommentsIn(imps: seq<Import>, i: nat, j: nat)
    requires i < |imps| && j < |imps[i].preComments|
    ensures imps[i].preComments[j] in AllComments(imps)
    decreases i
  {
    if i > 0 {
      AllCommentsIn(imps[1..], i - 1, j);
    }
  }

  /** A comment kept from a block's lines is one the render loop can write
      back, without the characters the block lacks. */
  lemma CommentFacts(section: string, t: string, c: char)
    requires t in CommentsOf(ScanLines(section))
    ensures GoodComment(t) && (c !in section ==> c !in t)
  {
    var lines := ScanLines(section);
    FlatMapIn(LineComments, lines, t);
    var l :| l in lines && t in LineComments(l);
    ScanLinesFree(section, c);
    TrimSpaceSpec(l);
    TrimSpaceInfix(l);
    InfixKeeps(t, l, '\n');
    InfixKeeps(t, l, c);
  }

  /** An import line of a block is one of its lines. */
  lemma CodeLineFacts(section: string, code: string, c: char)
    requires code in CodeLines(ScanLines(section))
    ensures '\n' !in code && (c !in section ==> c !in code)
  {
    var lines := ScanLines(section);
    FlatMapIn(LineCode, lines, code);
    ScanLinesFree(section, c);
  }

  /** The i-th import the parser reads from a block is well formed and holds
      no character the block lacks. */
  lemma ParsedImport(section: string, imps: seq<Import>, i: nat, c: char)
    requires ParseSection(section) == Ok(imps) && i < |imps|
    ensures WellFormed(imps[i]) && (c !in section ==> FreeOf(imps[i], c))
  {
    var lines := ScanLines(section);
    var codes := CodeLines(lines);
    ParseSectionSpec(section);
    EachParsesAt(codes, imps, i);
    var x := imps[i];
    var code := codes[i];
    ParsedLine(code, x.preComments);
    CodeLineFacts(section, code, c);
    InfixKeeps(x.postComment, code, '\n');
    InfixKeeps(x.postComment, code, c);
    InfixKeeps(x.ident, code, c);
    InfixKeeps(x.path, code, c);
    forall j | 0 <= j < |x.preComments|
      ensures GoodComment(x.preComments[j]) && (c !in section ==> c !in x.preComments[j])
    {
      AllCommentsIn(imps, i, j);
      CommentFacts(section, x.preComments[j], c);
    }
  }

  /** Every import the parser reads from a block can be written back, and
      holds no character the block lacks. */
  lemma ParsedWellFormed(section: string, c: char)
    ensures var r := ParseSection(section);
      r.Ok? ==> AllWellFormed(r.value) && (c !in section ==> forall i :: 0 <= i < |r.value| ==> FreeOf(r.value[i], c))
  {
    var r := ParseSection(section);
    if r.Ok? {
      forall i | 0 <= i < |r.value|
        ensures WellFormed(r.value[i]) && (c !in section ==> FreeOf(r.value[i], c))
      {
        ParsedImport(section, r.value, i, c);
      }
    }
  }

  /** A rearrangement of well-formed imports is well formed, and of imports
      free of c is free of c. */
  lemma Rearranged(xs: seq<Import>, ys: seq<Import>, c: char)
    requires multiset(ys) == multiset(xs)
    ensures AllWellFormed(xs) ==> AllWellFormed(ys)
    ensures (forall i :: 0 <= i < |xs| ==> FreeOf(xs[i], c)) ==> forall i :: 0 <= i < |ys| ==> FreeOf(ys[i], c)
  {
    forall i | 0 <= i < |ys|
      ensures exists j :: 0 <= j < |xs| && xs[j] == ys[i]
    {
      assert ys[i] in multiset(ys);
      assert ys[i] in xs;
    }
  }

  // ---------------------------------------------------------------------------
  // What the render loop writes

  /** Joined lines hold only their own characters and newlines. */
  lemma {:induction false} UnlinesFree(ls: seq<string>, c: char)
    requires c != '\n' && forall l :: l in ls ==> c !in l
    ensures c !in Unlines(ls)
    decreases |ls|
  {
    if ls != [] {
      assert ls[0] in ls;
      UnlinesFree(ls[1..], c);
    }
  }

  /** The lines written for imports free of c hold no c either, when c is not
      one of the characters the render loop adds. */
  lemma {:induction false} RenderedLinesFree(prefix: string, xs: seq<Import>, g: int, c: char)
    requires c != ' ' && c != '"' && c != '\n'
    requires forall i :: 0 <= i < |xs| ==> FreeOf(xs[i], c)
    ensures forall l :: l in RenderedLines(prefix, xs, g) ==> c !in l
    decreases |xs|
  {
    if xs != [] {
      var x := xs[0];
      assert FreeOf(x, c);
      assert forall i :: 0 <= i < |xs| - 1 ==> xs[1..][i] == xs[i + 1];
      RenderedLinesFree(prefix, xs[1..], Group(prefix, x.path), c);
      assert c !in ImportLine(x);
    }
  }

  /** The rendering of imports free of c holds no c. */
  lemma RenderedFree(prefix: string, xs: seq<Import>, c: char)
    requires c != ' ' && c != '"' && c != '\n'
    requires forall i :: 0 <= i < |xs| ==> FreeOf(xs[i], c)
    ensures c !in Rendered(prefix, xs)
  {
    RenderedLinesFree(prefix, xs, 0, c);
    UnlinesFree(RenderedLines(prefix, xs, 0), c);
  }
}
