/** The string primitives the import sorter relies on, as Go's standard library
    defines them on byte strings: white-space trimming and splitting, substring
    search, line scanning and double-quoted literals. A `char` stands for a byte. */
module Text {
  import opened Types

  /** The ASCII white space that strings.TrimSpace and strings.Fields remove. */
  predicate IsSpace(c: char) {
    c == ' ' || c == '\t' || c == '\n' || c == '\U{B}' || c == '\U{C}' || c == '\r'
  }

  predicate AllSpace(s: string) {
    forall i :: 0 <= i < |s| ==> IsSpace(s[i])
  }

  predicate NoSpace(s: string) {
    forall i :: 0 <= i < |s| ==> !IsSpace(s[i])
  }

  /** strings.HasPrefix */
  predicate HasPrefix(s: string, p: string) {
    |p| <= |s| && s[..|p|] == p
  }

  /** strings.HasSuffix */
  predicate HasSuffix(s: string, p: string) {
    |p| <= |s| && s[|s| - |p|..] == p
  }

  // ---------------------------------------------------------------------------
  // Trimming

  /** Drops the leading white space. */
  function TrimLeft(s: string): string {
    if s != [] && IsSpace(s[0]) then TrimLeft(s[1..]) else s
  }

  /** Drops the trailing white space. */
  function TrimRight(s: string): string {
    if s != [] && IsSpace(s[|s| - 1]) then TrimRight(s[..|s| - 1]) else s
  }

  /** TrimLeft keeps a suffix of s, with only white space before it, that does
      not start with white space. */
  lemma {:induction false} TrimLeftSpec(s: string)
    ensures var r := TrimLeft(s);
      && |r| <= |s| && r == s[|s| - |r|..]
      && AllSpace(s[..|s| - |r|])
      && (r == [] || !IsSpace(r[0]))
    decreases |s|
  {
    if s != [] && IsSpace(s[0]) {
      TrimLeftSpec(s[1..]);
      var r := TrimLeft(s[1..]);
      assert s[..|s| - |r|] == [s[0]] + s[1..][..|s| - 1 - |r|];
    }
  }

  /** TrimRight keeps a prefix of s, with only white space after it, that does
      not end with white space. */
  lemma {:induction false} TrimRightSpec(s: string)
    ensures var r := TrimRight(s);
      && |r| <= |s| && r == s[..|r|]
      && AllSpace(s[|r|..])
      && (r == [] || !IsSpace(r[|r| - 1]))
    decreases |s|
  {
    if s != [] && IsSpace(s[|s| - 1]) {
      var t := s[..|s| - 1];
      TrimRightSpec(t);
      var r := TrimRight(t);
      assert r == s[..|r|] by {
        assert s[..|r|] == t[..|r|];
      }
      var u := s[|r|..];
      forall i | 0 <= i < |u|
        ensures IsSpace(u[i])
      {
        if |r| + i < |t| {
          assert u[i] == t[|r|..][i];
        } else {
          assert u[i] == s[|s| - 1];
        }
      }
    }
  }

  /** strings.TrimSpace. */
  function TrimSpace(s: string): string {
    TrimRight(TrimLeft(s))
  }

  /** TrimSpace keeps the longest slice of s that neither starts nor ends with
      white space and has only white space around it. */
  lemma TrimSpaceSpec(s: string)
    ensures var r := TrimSpace(s);
      && (r == [] || (!IsSpace(r[0]) && !IsSpace(r[|r| - 1])))
      && exists i :: 0 <= i <= |s| - |r| && r == s[i..i + |r|]
                     && AllSpace(s[..i]) && AllSpace(s[i + |r|..])
  {
    var t := TrimLeft(s);
    var r := TrimRight(t);
    TrimLeftSpec(s);
    TrimRightSpec(t);
    var i := |s| - |t|;
    assert r == s[i..i + |r|] by {
      assert t == s[i..];
      assert t[..|r|] == s[i..i + |r|];
    }
    assert AllSpace(s[i + |r|..]) by {
      assert t == s[i..];
      assert s[i + |r|..] == t[|r|..];
    }
  }

  /** TrimLeft stops at the first character that is not white space. */
  lemma {:induction false} TrimLeftAt(s: string, d: nat)
    requires d <= |s| && AllSpace(s[..d]) && (d == |s| || !IsSpace(s[d]))
    ensures TrimLeft(s) == s[d..]
    decreases d
  {
    if d > 0 {
      assert s[..d][0] == s[0];
      assert s[1..][..d - 1] == s[..d][1..];
      TrimLeftAt(s[1..], d - 1);
    }
  }

  /** TrimRight stops after the last character that is not white space. */
  lemma {:induction false} TrimRightAt(s: string, n: nat)
    requires n <= |s| && AllSpace(s[n..]) && (n == 0 || !IsSpace(s[n - 1]))
    ensures TrimRight(s) == s[..n]
    decreases |s| - n
  {
    if n < |s| {
      assert s[n..][|s| - 1 - n] == s[|s| - 1];
      assert s[..|s| - 1][n..] == s[n..][..|s| - 1 - n];
      TrimRightAt(s[..|s| - 1], n);
      assert s[..|s| - 1][..n] == s[..n];
    }
  }

  /** Trimming removes exactly the white space padding around a core that
      neither starts nor ends with white space. */
  lemma TrimSpacePadded(a: string, core: string, b: string)
    requires AllSpace(a) && AllSpace(b)
    requires core == [] || (!IsSpace(core[0]) && !IsSpace(core[|core| - 1]))
    ensures TrimSpace(a + core + b) == core
  {
    var s := a + core + b;
    if core == [] {
      assert AllSpace(s[..|s|]) by {
        forall i | 0 <= i < |s| ensures IsSpace(s[i]) {
          if i < |a| { assert s[i] == a[i]; } else { assert s[i] == b[i - |a|]; }
        }
      }
      TrimLeftAt(s, |s|);
    } else {
      assert s[..|a|] == a;
      assert s[|a|] == core[0];
      TrimLeftAt(s, |a|);
      var t := core + b;
      assert s[|a|..] == t;
      assert t[|core|..] == b;
      TrimRightAt(t, |core|);
      assert t[..|core|] == core;
    }
  }

  // ---------------------------------------------------------------------------
  // Searching

  /** Whether sub occurs in s at position p. */
  predicate OccursAt(s: string, sub: string, p: int) {
    0 <= p && p + |sub| <= |s| && s[p..p + |sub|] == sub
  }

  /** strings.Index: the position of the first occurrence of sub in s, or -1
      when there is none. */
  function Index(s: string, sub: string): (i: int)
    ensures -1 <= i <= |s|
  {
    IndexFrom(s, sub, 0)
  }

  /** The first occurrence of sub in s at or after k, or -1. */
  function IndexFrom(s: string, sub: string, k: nat): (i: int)
    requires k <= |s|
    ensures i == -1 || k <= i <= |s|
    decreases |s| - k
  {
    if k + |sub| > |s| then -1
    else if s[k..k + |sub|] == sub then k
    else IndexFrom(s, sub, k + 1)
  }

  /** Index finds the first occurrence, and -1 means there is none. */
  lemma IndexSpec(s: string, sub: string)
    ensures var i := Index(s, sub);
      && (i >= 0 ==> OccursAt(s, sub, i))
      && forall p :: 0 <= p && (i == -1 || p < i) ==> !OccursAt(s, sub, p)
  {
    IndexFromSpec(s, sub, 0);
  }

  lemma {:induction false} IndexFromSpec(s: string, sub: string, k: nat)
    requires k <= |s|
    ensures var i := IndexFrom(s, sub, k);
      && (i >= 0 ==> OccursAt(s, sub, i))
      && forall p :: k <= p && (i == -1 || p < i) ==> !OccursAt(s, sub, p)
    decreases |s| - k
  {
    if k + |sub| <= |s| && s[k..k + |sub|] != sub {
      IndexFromSpec(s, sub, k + 1);
    }
  }

  /** bytes.IndexByte: the position of the first c in s, or -1. */
  function IndexByte(s: string, c: char): (i: int)
    ensures -1 <= i < |s|
  {
    if s == [] then -1
    else if s[0] == c then 0
    else
      var j := IndexByte(s[1..], c);
      if j == -1 then -1 else j + 1
  }

  /** IndexByte finds the first c, and -1 means there is none. */
  lemma {:induction false} IndexByteSpec(s: string, c: char)
    ensures var i := IndexByte(s, c);
      && (i == -1 <==> c !in s)
      && (i >= 0 ==> s[i] == c && c !in s[..i])
    decreases |s|
  {
    if s != [] && s[0] != c {
      IndexByteSpec(s[1..], c);
      var j := IndexByte(s[1..], c);
      if j != -1 {
        assert s[..j + 1] == [s[0]] + s[1..][..j];
      }
    }
  }

  /** IndexByte finds the first occurrence. */
  lemma {:induction false} IndexByteAt(s: string, c: char, i: nat)
    requires i < |s| && s[i] == c && c !in s[..i]
    ensures IndexByte(s, c) == i
    decreases i
  {
    if i > 0 {
      assert s[0] == s[..i][0];
      assert s[1..][..i - 1] == s[..i][1..];
      IndexByteAt(s[1..], c, i - 1);
    }
  }

  // ---------------------------------------------------------------------------
  // Fields

  /** The length of the leading run of non-white-space characters. */
  function TokenLength(s: string): (n: nat)
    ensures n <= |s|
  {
    if s != [] && !IsSpace(s[0]) then TokenLength(s[1..]) + 1 else 0
  }

  /** TokenLength measures the leading run of non-white-space characters. */
  lemma {:induction false} TokenLengthSpec(s: string)
    ensures var n := TokenLength(s);
      NoSpace(s[..n]) && (n == |s| || IsSpace(s[n]))
    decreases |s|
  {
    if s != [] && !IsSpace(s[0]) {
      TokenLengthSpec(s[1..]);
      var n := TokenLength(s[1..]);
      assert s[..n + 1] == [s[0]] + s[1..][..n];
    }
  }

  /** TokenLength stops at the first white space. */
  lemma {:induction false} TokenLengthAt(s: string, n: nat)
    requires n <= |s| && NoSpace(s[..n]) && (n == |s| || IsSpace(s[n]))
    ensures TokenLength(s) == n
    decreases n
  {
    if n > 0 {
      assert s[0] == s[..n][0];
      assert s[1..][..n - 1] == s[..n][1..];
      TokenLengthAt(s[1..], n - 1);
    }
  }

  /** A non-empty run of non-white-space characters. */
  predicate IsWord(w: string) {
    w != [] && NoSpace(w)
  }

  /** strings.Fields: the maximal runs of non-white-space characters, in order. */
  function Fields(s: string): seq<string>
    decreases |s|
  {
    var t := TrimLeft(s);
    if t == [] then []
    else
      TrimLeftSpec(s);
      var n := TokenLength(t);
      [t[..n]] + Fields(t[n..])
  }

  /** Every field is a word. */
  lemma {:induction false} FieldsWords(s: string)
    ensures forall i :: 0 <= i < |Fields(s)| ==> IsWord(Fields(s)[i])
    decreases |s|
  {
    var t := TrimLeft(s);
    if t != [] {
      TrimLeftSpec(s);
      var n := TokenLength(t);
      TokenLengthSpec(t);
      FieldsWords(t[n..]);
      var r := Fields(s);
      assert r == [t[..n]] + Fields(t[n..]);
      forall i | 0 <= i < |r|
        ensures IsWord(r[i])
      {
        if i > 0 {
          assert r[i] == Fields(t[n..])[i - 1];
        }
      }
    }
  }

  /** Words joined by single spaces. */
  function Unwords(ws: seq<string>): string {
    if ws == [] then ""
    else if |ws| == 1 then ws[0]
    else ws[0] + " " + Unwords(ws[1..])
  }

  /** A leading word is the first field. */
  lemma FieldsCons(w: string, rest: string)
    requires IsWord(w) && (rest == [] || IsSpace(rest[0]))
    ensures Fields(w + rest) == [w] + Fields(rest)
  {
    var s := w + rest;
    assert s[..0] == [] && s[0] == w[0];
    TrimLeftAt(s, 0);
    assert s[..|w|] == w;
    assert |w| == |s| || s[|w|] == rest[0];
    TokenLengthAt(s, |w|);
    assert s[|w|..] == rest;
  }

  /** White space alone holds no field. */
  lemma FieldsBlank(pad: string)
    requires AllSpace(pad)
    ensures Fields(pad) == []
  {
    assert pad[..|pad|] == pad;
    TrimLeftAt(pad, |pad|);
  }

  /** A leading white-space character separates no field. */
  lemma FieldsSpace(c: char, s: string)
    requires IsSpace(c)
    ensures Fields([c] + s) == Fields(s)
  {
    assert ([c] + s)[1..] == s;
    assert TrimLeft([c] + s) == TrimLeft(s);
  }

  /** A leading run of white space separates no field. */
  lemma {:induction false} FieldsSpaces(gap: string, s: string)
    requires AllSpace(gap)
    ensures Fields(gap + s) == Fields(s)
    decreases |gap|
  {
    if gap == [] {
      assert gap + s == s;
    } else {
      FieldsSpaces(gap[1..], s);
      assert gap + s == [gap[0]] + (gap[1..] + s);
      FieldsSpace(gap[0], gap[1..] + s);
    }
  }

  /** Words, each followed by its own run of white space: only the last run
      may be empty. */
  function Interleave(ws: seq<string>, gaps: seq<string>): string
    requires |gaps| == |ws|
  {
    if ws == [] then "" else ws[0] + gaps[0] + Interleave(ws[1..], gaps[1..])
  }

  /** Splitting words separated by any non-empty runs of white space, with
      white space before and after them, gives the words back. */
  lemma {:induction false} FieldsInterleave(lead: string, ws: seq<string>, gaps: seq<string>)
    requires AllSpace(lead) && |gaps| == |ws|
    requires forall i :: 0 <= i < |ws| ==> IsWord(ws[i]) && AllSpace(gaps[i])
    requires forall i :: 0 <= i < |ws| - 1 ==> gaps[i] != []
    ensures Fields(lead + Interleave(ws, gaps)) == ws
    decreases |ws|
  {
    FieldsSpaces(lead, Interleave(ws, gaps));
    if ws == [] {
      FieldsBlank("");
    } else {
      var rest := Interleave(ws[1..], gaps[1..]);
      assert IsWord(ws[0]) && AllSpace(gaps[0]);
      if ws[1..] != [] {
        assert gaps[0] != [];
        FieldsInterleave(gaps[0], ws[1..], gaps[1..]);
      } else {
        assert rest == [];
        FieldsBlank(gaps[0] + rest);
      }
      FieldsCons(ws[0], gaps[0] + rest);
      assert ws[0] + gaps[0] + rest == ws[0] + (gaps[0] + rest);
      HeadTail(ws);
    }
  }

  /** Tabs separate fields as spaces do: a tab-indented import line with a
      local name splits into the name and the quoted path. */
  lemma FieldsAtTabs()
    ensures Fields("\tfoo\t\"fmt\"") == ["foo", "\"fmt\""]
  {
    var ws := ["foo", "\"fmt\""];
    var gaps := ["\t", ""];
    assert Interleave(ws, gaps) == "foo\t\"fmt\"" by {
      assert Interleave(ws[1..], gaps[1..]) == "\"fmt\"" by {
        assert Interleave(ws[1..][1..], gaps[1..][1..]) == "";
      }
    }
    assert "\t" + Interleave(ws, gaps) == "\tfoo\t\"fmt\"";
    FieldsInterleave("\t", ws, gaps);
  }

  /** Splitting words joined by spaces, with white space after them, gives the
      words back: Fields inverts Unwords. */
  lemma {:induction false} FieldsUnwords(ws: seq<string>, pad: string)
    requires forall i :: 0 <= i < |ws| ==> IsWord(ws[i])
    requires AllSpace(pad)
    ensures Fields(Unwords(ws) + pad) == ws
    decreases |ws|
  {
    if ws == [] {
      assert Unwords(ws) + pad == pad;
      FieldsBlank(pad);
    } else if |ws| == 1 {
      FieldsOneWord(ws, pad);
    } else {
      FieldsUnwords(ws[1..], pad);
      FieldsMoreWords(ws, pad);
    }
  }

  lemma FieldsOneWord(ws: seq<string>, pad: string)
    requires |ws| == 1 && IsWord(ws[0]) && AllSpace(pad)
    ensures Fields(Unwords(ws) + pad) == ws
  {
    assert ws == [ws[0]];
    assert Unwords(ws) + pad == ws[0] + pad;
    assert Fields(ws[0] + pad) == [ws[0]] + Fields(pad) by { FieldsCons(ws[0], pad); }
    assert Fields(pad) == [] by { FieldsBlank(pad); }
  }

  lemma FieldsMoreWords(ws: seq<string>, pad: string)
    requires |ws| >= 2 && IsWord(ws[0])
    requires Fields(Unwords(ws[1..]) + pad) == ws[1..]
    ensures Fields(Unwords(ws) + pad) == ws
  {
    UnwordsStep(ws, pad);
    FieldsWordSpace(ws[0], Unwords(ws[1..]) + pad);
    HeadTail(ws);
  }

  lemma UnwordsStep(ws: seq<string>, pad: string)
    requires |ws| >= 2
    ensures Unwords(ws) + pad == ws[0] + (" " + (Unwords(ws[1..]) + pad))
  {
  }

  /** A non-empty sequence is its head followed by its tail. */
  lemma HeadTail<T>(xs: seq<T>)
    requires xs != []
    ensures [xs[0]] + xs[1..] == xs
  {
  }

  lemma FieldsWordSpace(w: string, tail: string)
    requires IsWord(w)
    ensures Fields(w + (" " + tail)) == [w] + Fields(tail)
  {
    FieldsCons(w, " " + tail);
    FieldsSpace(' ', tail);
  }

  // ---------------------------------------------------------------------------
  // Lines

  /** bufio.ScanLines: s cut at every newline; an empty fragment after the final
      newline is not a line. */
  function ScanLines(s: string): seq<string>
    decreases |s|
  {
    if s == [] then []
    else
      var i := IndexByte(s, '\n');
      if i == -1 then [s] else [s[..i]] + ScanLines(s[i + 1..])
  }

  /** No scanned line holds a newline. */
  lemma {:induction false} ScanLinesNoNewline(s: string)
    ensures forall i :: 0 <= i < |ScanLines(s)| ==> '\n' !in ScanLines(s)[i]
    decreases |s|
  {
    if s != [] {
      var i := IndexByte(s, '\n');
      IndexByteSpec(s, '\n');
      if i != -1 {
        ScanLinesNoNewline(s[i + 1..]);
        var ls := ScanLines(s);
        forall j | 1 <= j < |ls|
          ensures '\n' !in ls[j]
        {
          assert ls[j] == ScanLines(s[i + 1..])[j - 1];
        }
      }
    }
  }

  /** Each line followed by a newline. */
  function Unlines(ls: seq<string>): string {
    if ls == [] then "" else ls[0] + "\n" + Unlines(ls[1..])
  }

  /** Scanning text made of newline-terminated lines gives those lines back. */
  lemma {:induction false} ScanLinesUnlines(ls: seq<string>)
    requires forall i :: 0 <= i < |ls| ==> '\n' !in ls[i]
    ensures ScanLines(Unlines(ls)) == ls
    decreases |ls|
  {
    if ls != [] {
      ScanLinesCons(ls[0], Unlines(ls[1..]));
      ScanLinesUnlines(ls[1..]);
      assert ls == [ls[0]] + ls[1..];
    }
  }

  /** s with a newline added when its last line lacks one. */
  function Terminated(s: string): string {
    if s != [] && s[|s| - 1] != '\n' then s + "\n" else s
  }

  /** The text up to the first newline is the first line. */
  lemma ScanLinesCons(head: string, rest: string)
    requires '\n' !in head
    ensures ScanLines(head + "\n" + rest) == [head] + ScanLines(rest)
  {
    var s := head + "\n" + rest;
    assert s[..|head|] == head && s[|head|] == '\n';
    IndexByteAt(s, '\n', |head|);
    assert s[|head| + 1..] == rest;
  }

  lemma TerminatedCons(head: string, rest: string)
    ensures Terminated(head + "\n" + rest) == head + "\n" + Terminated(rest)
  {
    var s := head + "\n" + rest;
    if rest != [] {
      assert s[|s| - 1] == rest[|rest| - 1];
    }
  }

  /** Joining the scanned lines again restores the text, up to a newline the
      last line may have lacked. */
  lemma {:induction false} UnlinesScanLines(s: string)
    ensures Unlines(ScanLines(s)) == Terminated(s)
    decreases |s|
  {
    if s != [] {
      var i := IndexByte(s, '\n');
      IndexByteSpec(s, '\n');
      if i == -1 {
        assert s[|s| - 1] in s;
        assert Unlines([s]) == s + "\n" + Unlines([]);
      } else {
        var head, rest := s[..i], s[i + 1..];
        assert s == head + "\n" + rest by {
          assert s == s[..i] + [s[i]] + s[i + 1..];
        }
        ScanLinesCons(head, rest);
        UnlinesScanLines(rest);
        TerminatedCons(head, rest);
        var ls := ScanLines(rest);
        assert ([head] + ls)[0] == head && ([head] + ls)[1..] == ls;
      }
    }
  }

  // ---------------------------------------------------------------------------
  // Double-quoted literals

  /** Printable ASCII other than the double quote and the backslash: the bytes
      that %q writes as themselves and that a double-quoted literal may hold
      without an escape. */
  predicate PlainChar(c: char) {
    ' ' <= c <= '~' && c != '"' && c != '\\'
  }

  predicate Plain(s: string) {
    forall i :: 0 <= i < |s| ==> PlainChar(s[i])
  }

  /** %q of a plain string. */
  function Quote(s: string): string {
    "\"" + s + "\""
  }

  /** strconv.Unquote restricted to double-quoted literals without escapes. */
  function Unquote(s: string): Option<string> {
    if |s| >= 2 && s[0] == '"' && s[|s| - 1] == '"' && Plain(s[1..|s| - 1]) then
      Some(s[1..|s| - 1])
    else None
  }

  /** What Unquote accepts is the quoted form of a plain string. */
  lemma UnquoteSpec(s: string)
    ensures Unquote(s).Some? ==> Plain(Unquote(s).value) && Quote(Unquote(s).value) == s
  {
    if Unquote(s).Some? {
      assert s == [s[0]] + s[1..|s| - 1] + [s[|s| - 1]];
    }
  }

  /** Unquote inverts Quote on every plain string. */
  lemma UnquoteQuote(p: string)
    requires Plain(p)
    ensures Unquote(Quote(p)) == Some(p)
  {
    assert Quote(p)[1..|p| + 1] == p;
  }
}
