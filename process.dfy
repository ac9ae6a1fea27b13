/** process and sortImportSection: find the first import block of a Go source
    file, sort its imports into tiers, and splice the result back in. */
module Process {
  import opened Types
  import opened Text
  import opened LocalPrefix
  import opened Grouping
  import opened Parser
  import opened Render
  import opened Readback

  // ---------------------------------------------------------------------------
  // The block locator

  /** The text that opens an import block. */
  const Opening: string := "import ("

  /** importRegex, `import \((([^)]|\n)*)\)`, as its leftmost match sees it:
      the bounds of the text between the first "import (" and the first ")"
      after it; no match when either is missing. A later "import (" cannot
      match when the first one finds no ")" after it. */
  function Locate(data: string): (r: Option<(nat, nat)>)
    ensures r.Some? ==> r.value.0 <= r.value.1 < |data|
  {
    var p := Index(data, Opening);
    IndexSpec(data, Opening);
    if p == -1 then None
    else
      var j := IndexByte(data[p + |Opening|..], ')');
      if j == -1 then None else Some((p + |Opening|, p + |Opening| + j))
  }

  /** A match is the text after the first "import (" up to the first ")" after
      it; there is none exactly when no ")" follows any "import (". */
  lemma LocateSpec(data: string)
    ensures Locate(data).None? <==>
      forall p, q :: OccursAt(data, Opening, p) && p + |Opening| <= q < |data| ==> data[q] != ')'
    ensures Locate(data).Some? ==>
      var (i0, i1) := Locate(data).value;
      && i0 >= |Opening| && OccursAt(data, Opening, i0 - |Opening|)
      && (forall p :: 0 <= p < i0 - |Opening| ==> !OccursAt(data, Opening, p))
      && data[i1] == ')' && ')' !in data[i0..i1]
  {
    if Locate(data).Some? {
      LocateFound(data);
    } else {
      LocateMissing(data);
    }
  }

  /** A match starts after the first "import (" and ends at the first ")"
      after it. */
  lemma LocateFound(data: string)
    requires Locate(data).Some?
    ensures var (i0, i1) := Locate(data).value;
      && i0 >= |Opening| && OccursAt(data, Opening, i0 - |Opening|)
      && (forall p :: 0 <= p < i0 - |Opening| ==> !OccursAt(data, Opening, p))
      && data[i1] == ')' && ')' !in data[i0..i1]
  {
    var p := Index(data, Opening);
    IndexSpec(data, Opening);
    var rest := data[p + |Opening|..];
    IndexByteSpec(rest, ')');
    var j := IndexByte(rest, ')');
    assert data[p + |Opening|..p + |Opening| + j] == rest[..j];
  }

  /** No match: no ")" follows any "import (". */
  lemma LocateMissing(data: string)
    requires Locate(data).None?
    ensures forall p, q :: OccursAt(data, Opening, p) && p + |Opening| <= q < |data| ==> data[q] != ')'
  {
    var p := Index(data, Opening);
    IndexSpec(data, Opening);
    if p != -1 {
      var rest := data[p + |Opening|..];
      IndexByteSpec(rest, ')');
      forall p', q | OccursAt(data, Opening, p') && p' + |Opening| <= q < |data|
        ensures data[q] != ')'
      {
        assert data[q] == rest[q - p - |Opening|];
      }
    }
  }

  // ---------------------------------------------------------------------------
  // sortImportSection and process

  /** What process returns for data when the sort leaves the parsed imports in
      the arrangement ys: the data itself when there is no import block; the
      parser's error; or the data with the block's interior replaced by the
      rendering of ys, which is in tier-and-path order and holds the parsed
      imports, each as often as parsed. */
  predicate Processed(pkgPath: string, data: string, ys: seq<Import>, out: Result<string, ParseError>) {
    match Locate(data)
    case None => out == Ok(data)
    case Some((i0, i1)) =>
      match ParseSection(data[i0..i1])
      case Err(e) => out == Err(e)
      case Ok(xs) =>
        var prefix := LocalPackagePrefix(pkgPath);
        && Sorted(prefix, ys) && multiset(ys) == multiset(xs)
        && out == Ok(data[..i0] + Rendered(prefix, ys) + data[i1..])
  }

  /** sortImportSection: parse the block, sort the imports with the package's
      local prefix, write them out. On a parse error nothing is written. The
      ghost result is the arrangement the sort left. */
  method SortImportSection(pkgPath: string, w: Buffer, section: string) returns (err: Option<ParseError>, ghost sorted: seq<Import>)
    modifies w
    ensures var r := ParseSection(section);
      && (r.Err? ==> err == Some(r.error) && w.contents == old(w.contents))
      && (r.Ok? ==>
            var prefix := LocalPackagePrefix(pkgPath);
            && err.None?
            && Sorted(prefix, sorted) && multiset(sorted) == multiset(r.value)
            && w.contents == old(w.contents) + Rendered(prefix, sorted))
  {
    var parsed := ParseImports(section);
    if parsed.Err? {
      return Some(parsed.error), [];
    }
    var imps := parsed.value;
    var a := new Import[|imps|](i requires 0 <= i < |imps| => imps[i]);
    assert a[..] == imps;
    var prefix := LocalPackagePrefix(pkgPath);
    SortByGroup(prefix, a);
    sorted := a[..];
    WriteImports(prefix, a[..], w);
    err := None;
  }

  /** process: the data unchanged when it has no import block; otherwise the
      text before the block's interior, the sorted interior, and the text from
      its closing ")" on. */
  method ProcessData(pkgPath: string, data: string) returns (out: Result<string, ParseError>, ghost sorted: seq<Import>)
    ensures Processed(pkgPath, data, sorted, out)
  {
    var loc := Locate(data);
    if loc.None? {
      return Ok(data), [];
    }
    var (i0, i1) := loc.value;
    var buf := new Buffer();
    buf.Write(data[..i0]);
    assert buf.contents == data[..i0];
    var err;
    err, sorted := SortImportSection(pkgPath, buf, data[i0..i1]);
    if err.Some? {
      return Err(err.value), sorted;
    }
    buf.Write(data[i1..]);
    out := Ok(buf.contents);
  }

  // ---------------------------------------------------------------------------
  // Processing processed data

  /** Occurrences within a shared beginning are shared. */
  lemma SharedOccurs(a: string, b: string, n: nat, q: nat)
    requires n <= |a| && n <= |b| && a[..n] == b[..n] && q + |Opening| <= n
    ensures OccursAt(a, Opening, q) == OccursAt(b, Opening, q)
  {
    assert a[q..q + |Opening|] == a[..n][q..q + |Opening|];
    assert b[q..q + |Opening|] == b[..n][q..q + |Opening|];
  }

  /** The first occurrence of "import (" in a text with the same beginning as
      data, up to the end of data's first occurrence, is at the same place. */
  lemma SameOpening(data: string, out: string, i0: nat)
    requires i0 >= |Opening| && OccursAt(data, Opening, i0 - |Opening|)
    requires forall p :: 0 <= p < i0 - |Opening| ==> !OccursAt(data, Opening, p)
    requires i0 <= |out| && i0 <= |data| && out[..i0] == data[..i0]
    ensures Index(out, Opening) == i0 - |Opening|
  {
    SharedOccurs(data, out, i0, i0 - |Opening|);
    forall q | 0 <= q < i0 - |Opening|
      ensures !OccursAt(out, Opening, q)
    {
      SharedOccurs(data, out, i0, q);
    }
    IndexSpec(out, Opening);
  }

  /** The three parts of a spliced text. */
  lemma SpliceParts(a: string, b: string, c: string)
    ensures (a + b + c)[..|a|] == a && (a + b + c)[|a|..] == b + c
    ensures (b + c)[..|b|] == b
  {
  }

  /** Replacing the interior of the block with text that holds no ")" leaves
      the block where it was, now around the new text. */
  lemma LocateSplice(data: string, i0: nat, i1: nat, mid: string)
    requires Locate(data) == Some((i0, i1)) && ')' !in mid
    ensures Locate(data[..i0] + mid + data[i1..]) == Some((i0, i0 + |mid|))
  {
    LocateFound(data);
    SpliceSearch(data, i0, i1, mid);
    LocateBy(data[..i0] + mid + data[i1..], i0, |mid|);
  }

  /** The two searches of Locate on the spliced text stop where the block's
      interior starts and where the new text ends. */
  lemma SpliceSearch(data: string, i0: nat, i1: nat, mid: string)
    requires i0 >= |Opening| && OccursAt(data, Opening, i0 - |Opening|)
    requires forall p :: 0 <= p < i0 - |Opening| ==> !OccursAt(data, Opening, p)
    requires i0 <= i1 < |data| && data[i1] == ')' && ')' !in mid
    ensures var out := data[..i0] + mid + data[i1..];
      && Index(out, Opening) == i0 - |Opening| && i0 <= |out|
      && IndexByte(out[i0..], ')') == |mid|
  {
    var out := data[..i0] + mid + data[i1..];
    SpliceParts(data[..i0], mid, data[i1..]);
    SameOpening(data, out, i0);
    assert data[i1..][0] == ')';
    IndexByteAt(out[i0..], ')', |mid|);
  }

  /** Locate, from where the two searches stop. */
  lemma LocateBy(s: string, i0: nat, n: nat)
    requires i0 >= |Opening| && Index(s, Opening) == i0 - |Opening| && i0 <= |s|
    requires IndexByte(s[i0..], ')') == n
    ensures Locate(s) == Some((i0, i0 + n))
  {
  }

  /** process is idempotent when no path repeats in the block: its output is
      its own output. With a repeated path the sort may order the duplicates
      differently on the second run, so nothing is claimed then. */
  lemma ProcessTwice(pkgPath: string, data: string, ys: seq<Import>, out: string, zs: seq<Import>, r: Result<string, ParseError>)
    requires Processed(pkgPath, data, ys, Ok(out)) && DistinctPaths(ys)
    requires Processed(pkgPath, out, zs, r)
    ensures r == Ok(out)
  {
    LocateSpec(data);
    if Locate(data).Some? {
      var (i0, i1) := Locate(data).value;
      var section := data[i0..i1];
      var xs := ParseSection(section).value;
      var prefix := LocalPackagePrefix(pkgPath);
      var rendered := Rendered(prefix, ys);
      ParsedWellFormed(section, ')');
      Rearranged(xs, ys, ')');
      RenderedFree(prefix, ys, ')');
      RenderThenParse(prefix, ys);
      LocateSplice(data, i0, i1, rendered);
      var i2 := i0 + |rendered|;
      assert out[..i0] == data[..i0] && out[i0..i2] == rendered && out[i2..] == data[i1..];
      SortedUnique(prefix, ys, zs);
    }
  }
}
