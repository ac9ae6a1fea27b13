/** The heuristic that names "this project" from a package path: five anchored
    patterns tried in order, the first that matches giving the project's root. */
module LocalPrefix {
  import opened Types
  import opened Text

  /** path is root itself or lies below it: root is followed by '/' or the end. */
  predicate InTree(path: string, root: string) {
    path == root || HasPrefix(path, root + "/")
  }

  // ---------------------------------------------------------------------------
  // Path segments

  /** The end of the '/'-free run that starts at i: the first '/' at or after i,
      or the end of s. */
  function SegmentEnd(s: string, i: nat): (j: nat)
    requires i <= |s|
    ensures i <= j <= |s|
    ensures forall k :: i <= k < j ==> s[k] != '/'
    ensures j == |s| || s[j] == '/'
    decreases |s| - i
  {
    if i == |s| || s[i] == '/' then i else SegmentEnd(s, i + 1)
  }

  /** SegmentEnd stops at the first '/'. */
  lemma {:induction false} SegmentEndAt(s: string, i: nat, j: nat)
    requires i <= j <= |s|
    requires forall k :: i <= k < j ==> s[k] != '/'
    requires j == |s| || s[j] == '/'
    ensures SegmentEnd(s, i) == j
    decreases j - i
  {
    if i < j {
      SegmentEndAt(s, i + 1, j);
    }
  }

  /** A capture that is followed by '/' or by the end of the path. */
  lemma CaptureInTree(pkg: string, e: nat)
    requires e <= |pkg| && (e == |pkg| || pkg[e] == '/')
    ensures InTree(pkg, pkg[..e])
  {
    if e < |pkg| {
      assert pkg[..e + 1] == pkg[..e] + "/";
    }
  }

  // ---------------------------------------------------------------------------
  // Segment shapes

  predicate IsDigit(c: char) {
    '0' <= c <= '9'
  }

  predicate AllDigits(s: string) {
    forall i :: 0 <= i < |s| ==> IsDigit(s[i])
  }

  predicate IsLower(c: char) {
    'a' <= c <= 'z'
  }

  predicate AllLower(s: string) {
    forall i :: 0 <= i < |s| ==> IsLower(s[i])
  }

  /** The length of the trailing run of digits. */
  function TrailingDigits(s: string): (d: nat)
    ensures d <= |s| && AllDigits(s[|s| - d..])
    ensures d == |s| || !IsDigit(s[|s| - d - 1])
  {
    if s != [] && IsDigit(s[|s| - 1]) then
      var d := TrailingDigits(s[..|s| - 1]);
      assert s[|s| - (d + 1)..] == s[..|s| - 1][|s| - 1 - d..] + [s[|s| - 1]];
      d + 1
    else 0
  }

  /** The length of the leading run of lower-case letters. */
  function LeadingLower(s: string): (n: nat)
    ensures n <= |s| && AllLower(s[..n])
    ensures n == |s| || !IsLower(s[n])
  {
    if s != [] && IsLower(s[0]) then
      var n := LeadingLower(s[1..]);
      assert s[..n + 1] == [s[0]] + s[1..][..n];
      n + 1
    else 0
  }

  /** TrailingDigits stops at the last non-digit. */
  lemma {:induction false} TrailingDigitsAt(s: string, m: nat)
    requires m <= |s| && AllDigits(s[|s| - m..]) && (m == |s| || !IsDigit(s[|s| - m - 1]))
    ensures TrailingDigits(s) == m
    decreases m
  {
    if m > 0 {
      assert s[|s| - 1] == s[|s| - m..][m - 1];
      var t := s[..|s| - 1];
      var u, v := t[|t| - (m - 1)..], s[|s| - m..];
      assert AllDigits(u) by {
        forall i | 0 <= i < |u|
          ensures IsDigit(u[i])
        {
          assert u[i] == v[i];
        }
      }
      assert m - 1 == |t| || t[|t| - (m - 1) - 1] == s[|s| - m - 1];
      TrailingDigitsAt(t, m - 1);
    }
  }

  /** LeadingLower stops at the first character that is not a lower-case letter. */
  lemma {:induction false} LeadingLowerAt(s: string, n: nat)
    requires n <= |s| && AllLower(s[..n]) && (n == |s| || !IsLower(s[n]))
    ensures LeadingLower(s) == n
    decreases n
  {
    if n > 0 {
      assert s[0] == s[..n][0];
      assert s[1..][..n - 1] == s[..n][1..];
      LeadingLowerAt(s[1..], n - 1);
    }
  }

  /** Whether a '/'-free segment matches `[^/]+\.v[0-9]+` from end to end,
      found by reading the version digits off its end. */
  predicate IsVersioned(seg: string) {
    var d := TrailingDigits(seg);
    1 <= d && d + 3 <= |seg| && seg[|seg| - d - 2] == '.' && seg[|seg| - d - 1] == 'v'
  }

  /** The same pattern stated directly: a non-empty name, ".v", then digits. */
  ghost predicate VersionedShape(seg: string) {
    exists k :: 1 <= k && k + 2 < |seg| && seg[k] == '.' && seg[k + 1] == 'v' && AllDigits(seg[k + 2..])
  }

  /** The digit-scanning test decides exactly the versioned shape. */
  lemma IsVersionedIff(seg: string)
    ensures IsVersioned(seg) <==> VersionedShape(seg)
  {
    if IsVersioned(seg) {
      VersionedHasShape(seg);
    }
    if VersionedShape(seg) {
      ShapeIsVersioned(seg);
    }
  }

  lemma VersionedHasShape(seg: string)
    requires IsVersioned(seg)
    ensures VersionedShape(seg)
  {
    var d := TrailingDigits(seg);
    var k := |seg| - d - 2;
    assert seg[k + 2..] == seg[|seg| - d..];
    assert 1 <= k && k + 2 < |seg| && seg[k] == '.' && seg[k + 1] == 'v' && AllDigits(seg[k + 2..]);
  }

  lemma ShapeIsVersioned(seg: string)
    requires VersionedShape(seg)
    ensures IsVersioned(seg)
  {
    var k :| 1 <= k && k + 2 < |seg| && seg[k] == '.' && seg[k + 1] == 'v' && AllDigits(seg[k + 2..]);
    var m := |seg| - k - 2;
    assert seg[|seg| - m..] == seg[k + 2..];
    TrailingDigitsAt(seg, m);
  }

  /** Whether a '/'-free segment matches `[a-z]+\.[^/]+` from end to end: a
      run of lower-case letters, a dot, and at least one more character. */
  predicate IsHostSegment(seg: string) {
    var n := LeadingLower(seg);
    1 <= n && n + 1 < |seg| && seg[n] == '.'
  }

  /** The same pattern stated directly. */
  ghost predicate HostShape(seg: string) {
    exists k :: 1 <= k && k + 1 < |seg| && AllLower(seg[..k]) && seg[k] == '.'
  }

  /** The letter-scanning test decides exactly the host shape. */
  lemma IsHostSegmentIff(seg: string)
    ensures IsHostSegment(seg) <==> HostShape(seg)
  {
    if HostShape(seg) {
      var k :| 1 <= k && k + 1 < |seg| && AllLower(seg[..k]) && seg[k] == '.';
      LeadingLowerAt(seg, k);
    }
  }

  // ---------------------------------------------------------------------------
  // The five patterns

  // The pattern ^(gopkg\.in/([^/]*/)?[^/]+\.v[0-9]+)(/|$): the optional owner
  // segment is tried first, so "gopkg.in/owner/name.vN" wins over
  // "gopkg.in/name.vN"; the capture must be followed by '/' or the end.
  function MatchVersionedGopkg(pkg: string): (m: Option<string>)
    ensures m.Some? ==> HasPrefix(m.value, "gopkg.in/") && InTree(pkg, m.value)
  {
    var h := |"gopkg.in/"|;
    if !HasPrefix(pkg, "gopkg.in/") then None
    else
      var e1 := SegmentEnd(pkg, h);
      var e2 := if e1 < |pkg| then SegmentEnd(pkg, e1 + 1) else e1;
      if e1 < |pkg| && IsVersioned(pkg[e1 + 1..e2]) then
        CaptureInTree(pkg, e2);
        Some(pkg[..e2])
      else if IsVersioned(pkg[h..e1]) then
        CaptureInTree(pkg, e1);
        Some(pkg[..e1])
      else None
  }

  /** `^(github\.com/[^/]+/[^/]+)`: the host, a non-empty owner and a non-empty
      repository. */
  function MatchGitHub(pkg: string): (m: Option<string>)
    ensures m.Some? ==> HasPrefix(m.value, "github.com/") && InTree(pkg, m.value)
  {
    var h := |"github.com/"|;
    if !HasPrefix(pkg, "github.com/") then None
    else
      var e1 := SegmentEnd(pkg, h);
      if e1 == h || e1 == |pkg| then None
      else
        var e2 := SegmentEnd(pkg, e1 + 1);
        if e2 == e1 + 1 then None
        else
          CaptureInTree(pkg, e2);
          Some(pkg[..e2])
  }

  /** `^(launchpad\.net/[^/]+)` and `^(code\.google\.com/p/[^/]+)`: a fixed
      host (with its trailing '/') and one non-empty segment. */
  function MatchHostThenSegment(host: string, pkg: string): (m: Option<string>)
    ensures m.Some? ==> HasPrefix(m.value, host) && InTree(pkg, m.value)
  {
    var h := |host|;
    if !HasPrefix(pkg, host) then None
    else
      var e1 := SegmentEnd(pkg, h);
      if e1 == h then None
      else
        CaptureInTree(pkg, e1);
        Some(pkg[..e1])
  }

  /** `^([a-z]+\.[^/]+/[^/]+)`: a host whose name starts with lower-case letters
      and a dot, then one non-empty segment. */
  function MatchGenericHost(pkg: string): (m: Option<string>)
    ensures m.Some? ==> m.value != "" && InTree(pkg, m.value)
  {
    var e1 := SegmentEnd(pkg, 0);
    if !IsHostSegment(pkg[..e1]) || e1 == |pkg| then None
    else
      var e2 := SegmentEnd(pkg, e1 + 1);
      if e2 == e1 + 1 then None
      else
        CaptureInTree(pkg, e2);
        Some(pkg[..e2])
  }

  // ---------------------------------------------------------------------------
  // The ordered table

  datatype Rule = VersionedGopkg | GitHub | Launchpad | GoogleCode | GenericHost

  /** The matchers table, in the order it is tried. */
  const Matchers: seq<Rule> := [VersionedGopkg, GitHub, Launchpad, GoogleCode, GenericHost]

  /** One matcher: the text of capture group 1 when its pattern matches. Every
      capture is non-empty and ends at a segment boundary of the path. */
  function Match(rule: Rule, pkg: string): (m: Option<string>)
    ensures m.Some? ==> m.value != "" && InTree(pkg, m.value)
  {
    match rule
    case VersionedGopkg => MatchVersionedGopkg(pkg)
    case GitHub => MatchGitHub(pkg)
    case Launchpad => MatchHostThenSegment("launchpad.net/", pkg)
    case GoogleCode => MatchHostThenSegment("code.google.com/p/", pkg)
    case GenericHost => MatchGenericHost(pkg)
  }

  /** The first-match loop over a table of rules: the capture of the first rule
      that matches, or "" when none does. */
  function FirstMatch(rules: seq<Rule>, pkg: string): (r: string)
    ensures r == "" <==> forall i :: 0 <= i < |rules| ==> Match(rules[i], pkg).None?
    ensures forall i :: 0 <= i < |rules| && Match(rules[i], pkg).Some?
              && (forall j :: 0 <= j < i ==> Match(rules[j], pkg).None?)
              ==> r == Match(rules[i], pkg).value
  {
    if rules == [] then ""
    else
      match Match(rules[0], pkg)
      case Some(c) => c
      case None =>
        var r := FirstMatch(rules[1..], pkg);
        assert forall i :: 1 <= i < |rules| ==> rules[i] == rules[1..][i - 1];
        r
  }

  /** localPackagePrefix: the root of the project a package path belongs to, or
      "" when no rule recognises the path. A non-empty root is the path itself
      or a '/'-bounded prefix of it. */
  function LocalPackagePrefix(pkg: string): (r: string)
    ensures r != "" ==> InTree(pkg, r)
  {
    var r := FirstMatch(Matchers, pkg);
    assert r != "" ==> exists i :: 0 <= i < |Matchers| && Match(Matchers[i], pkg) == Some(r) by {
      if r != "" {
        var i :| 0 <= i < |Matchers| && Match(Matchers[i], pkg).Some?;
        FirstMatchIsAMatch(Matchers, pkg);
      }
    }
    r
  }

  /** A non-empty result of FirstMatch is the capture of one of the rules. */
  lemma {:induction false} FirstMatchIsAMatch(rules: seq<Rule>, pkg: string)
    ensures FirstMatch(rules, pkg) != "" ==>
              exists i :: 0 <= i < |rules| && Match(rules[i], pkg) == Some(FirstMatch(rules, pkg))
    decreases |rules|
  {
    if rules != [] && Match(rules[0], pkg).None? {
      FirstMatchIsAMatch(rules[1..], pkg);
      if FirstMatch(rules, pkg) != "" {
        var i :| 0 <= i < |rules[1..]| && Match(rules[1..][i], pkg) == Some(FirstMatch(rules, pkg));
        assert rules[i + 1] == rules[1..][i];
      }
    }
  }

  // ---------------------------------------------------------------------------
  // What each rule yields on the path shapes it is written for

  /** The text after a capture: nothing, or a '/' that starts a deeper path. */
  predicate AtBoundary(rest: string) {
    rest == "" || rest[0] == '/'
  }

  /** The capture of the first rule in the table, when that rule matches. */
  lemma FirstRuleWins(pkg: string, c: string)
    requires Match(Matchers[0], pkg) == Some(c)
    ensures LocalPackagePrefix(pkg) == c
  {
  }

  /** A '/'-free segment placed at offset |a| ends where the segment does. */
  lemma SegmentEndOf(a: string, seg: string, rest: string)
    requires '/' !in seg && AtBoundary(rest)
    ensures SegmentEnd(a + seg + rest, |a|) == |a| + |seg|
  {
    var s := a + seg + rest;
    forall k | |a| <= k < |a| + |seg|
      ensures s[k] != '/'
    {
      assert s[k] == seg[k - |a|];
    }
    if rest != "" {
      assert s[|a| + |seg|] == rest[0];
    }
    SegmentEndAt(s, |a|, |a| + |seg|);
  }

  /** A string starts with any of its own prefixes. */
  lemma PrefixOfConcat(p: string, s: string)
    ensures HasPrefix(p + s, p)
  {
    assert (p + s)[..|p|] == p;
  }

  /** The capture of the rule at index i of the table, when every earlier rule
      fails on the path and rule i matches. */
  lemma RuleWins(pkg: string, i: nat, c: string)
    requires i < |Matchers| && Match(Matchers[i], pkg) == Some(c)
    requires forall j :: 0 <= j < i ==> Match(Matchers[j], pkg).None?
    ensures LocalPackagePrefix(pkg) == c
  {
  }

  /** A host followed by one segment, read back and cut where it ends. */
  lemma OneSegment(host: string, x: string, rest: string)
    requires '/' !in x && AtBoundary(rest)
    ensures HasPrefix(host + x + rest, host)
    ensures SegmentEnd(host + x + rest, |host|) == |host + x|
    ensures (host + x + rest)[|host|..|host + x|] == x
    ensures (host + x + rest)[..|host + x|] == host + x
  {
    var pkg := host + x + rest;
    assert pkg == host + (x + rest);
    PrefixOfConcat(host, x + rest);
    SegmentEndOf(host, x, rest);
    assert pkg[..|host| + |x|] == host + x;
  }

  /** A path whose k-th character differs from the k-th of p does not start with p. */
  lemma DiffersAt(s: string, p: string, k: nat)
    requires k < |p| && k < |s| && s[k] != p[k]
    ensures !HasPrefix(s, p)
  {
    if |p| <= |s| {
      assert s[..|p|][k] == s[k];
    }
  }

  /** A host followed by two '/'-separated segments, read back and cut where
      each segment ends. */
  lemma TwoSegments(host: string, x: string, y: string, rest: string)
    requires '/' !in x && '/' !in y && AtBoundary(rest)
    ensures HasPrefix(host + x + "/" + y + rest, host)
    ensures SegmentEnd(host + x + "/" + y + rest, |host|) == |host + x|
    ensures (host + x + "/" + y + rest)[|host + x|] == '/'
    ensures SegmentEnd(host + x + "/" + y + rest, |host + x + "/"|) == |host + x + "/" + y|
    ensures (host + x + "/" + y + rest)[|host|..|host + x|] == x
    ensures (host + x + "/" + y + rest)[|host + x + "/"|..|host + x + "/" + y|] == y
    ensures (host + x + "/" + y + rest)[..|host + x|] == host + x
    ensures (host + x + "/" + y + rest)[..|host + x + "/" + y|] == host + x + "/" + y
  {
    var pkg := host + x + "/" + y + rest;
    assert pkg == host + x + ("/" + y + rest);
    OneSegment(host, x, "/" + y + rest);
    OneSegment(host + x + "/", y, rest);
  }

  /** The versioned rule on `gopkg.in/owner/name.vN`: the owner form. */
  lemma GopkgOwnerMatch(owner: string, name: string, rest: string)
    requires '/' !in owner && '/' !in name && VersionedShape(name) && AtBoundary(rest)
    ensures MatchVersionedGopkg("gopkg.in/" + owner + "/" + name + rest) == Some("gopkg.in/" + owner + "/" + name)
  {
    TwoSegments("gopkg.in/", owner, name, rest);
    IsVersionedIff(name);
  }

  /** `gopkg.in/owner/name.vN`: the owner form of the versioned rule is tried
      first, so the prefix keeps both segments. */
  lemma GopkgOwnerForm(owner: string, name: string, rest: string)
    requires '/' !in owner && '/' !in name && VersionedShape(name) && AtBoundary(rest)
    ensures LocalPackagePrefix("gopkg.in/" + owner + "/" + name + rest) == "gopkg.in/" + owner + "/" + name
  {
    var pkg := "gopkg.in/" + owner + "/" + name + rest;
    GopkgOwnerMatch(owner, name, rest);
    RuleWins(pkg, 0, "gopkg.in/" + owner + "/" + name);
  }

  /** The versioned rule on `gopkg.in/name.vN` at the end of the path: the
      owner form needs a second segment, so the one-segment form applies. */
  lemma GopkgNameMatch(name: string)
    requires '/' !in name && VersionedShape(name)
    ensures MatchVersionedGopkg("gopkg.in/" + name) == Some("gopkg.in/" + name)
  {
    OneSegment("gopkg.in/", name, "");
    assert "gopkg.in/" + name + "" == "gopkg.in/" + name;
    IsVersionedIff(name);
  }

  /** `gopkg.in/name.vN` at the end of the path: the one-segment form. */
  lemma GopkgNameForm(name: string)
    requires '/' !in name && VersionedShape(name)
    ensures LocalPackagePrefix("gopkg.in/" + name) == "gopkg.in/" + name
  {
    GopkgNameMatch(name);
    RuleWins("gopkg.in/" + name, 0, "gopkg.in/" + name);
  }

  /** The versioned rule on `gopkg.in/name.vN/next` where next is not versioned. */
  lemma GopkgNameThenMatch(name: string, next: string, rest: string)
    requires '/' !in name && VersionedShape(name)
    requires '/' !in next && !VersionedShape(next) && AtBoundary(rest)
    ensures MatchVersionedGopkg("gopkg.in/" + name + "/" + next + rest) == Some("gopkg.in/" + name)
  {
    TwoSegments("gopkg.in/", name, next, rest);
    IsVersionedIff(name);
    IsVersionedIff(next);
  }

  /** `gopkg.in/name.vN/next...` where next is not itself versioned: the owner
      form fails and the one-segment form captures name. */
  lemma GopkgNameThenForm(name: string, next: string, rest: string)
    requires '/' !in name && VersionedShape(name)
    requires '/' !in next && !VersionedShape(next) && AtBoundary(rest)
    ensures LocalPackagePrefix("gopkg.in/" + name + "/" + next + rest) == "gopkg.in/" + name
  {
    GopkgNameThenMatch(name, next, rest);
    RuleWins("gopkg.in/" + name + "/" + next + rest, 0, "gopkg.in/" + name);
  }

  /** `github.com/owner/repo...`: the host and the next two segments. */
  lemma GitHubForm(owner: string, repo: string, rest: string)
    requires owner != "" && repo != "" && '/' !in owner && '/' !in repo && AtBoundary(rest)
    ensures LocalPackagePrefix("github.com/" + owner + "/" + repo + rest) == "github.com/" + owner + "/" + repo
  {
    var pkg := "github.com/" + owner + "/" + repo + rest;
    assert pkg[1] == 'i';
    DiffersAt(pkg, "gopkg.in/", 1);
    TwoSegments("github.com/", owner, repo, rest);
    RuleWins(pkg, 1, "github.com/" + owner + "/" + repo);
  }

  /** `launchpad.net/name...`: the host and one segment. */
  lemma LaunchpadForm(name: string, rest: string)
    requires name != "" && '/' !in name && AtBoundary(rest)
    ensures LocalPackagePrefix("launchpad.net/" + name + rest) == "launchpad.net/" + name
  {
    var pkg := "launchpad.net/" + name + rest;
    assert pkg[0] == 'l';
    DiffersAt(pkg, "gopkg.in/", 0);
    DiffersAt(pkg, "github.com/", 0);
    OneSegment("launchpad.net/", name, rest);
    RuleWins(pkg, 2, "launchpad.net/" + name);
  }

  /** `code.google.com/p/name...`: the host, "p" and one segment. */
  lemma GoogleCodeForm(name: string, rest: string)
    requires name != "" && '/' !in name && AtBoundary(rest)
    ensures LocalPackagePrefix("code.google.com/p/" + name + rest) == "code.google.com/p/" + name
  {
    var pkg := "code.google.com/p/" + name + rest;
    assert pkg[0] == 'c';
    DiffersAt(pkg, "gopkg.in/", 0);
    DiffersAt(pkg, "github.com/", 0);
    DiffersAt(pkg, "launchpad.net/", 0);
    OneSegment("code.google.com/p/", name, rest);
    RuleWins(pkg, 3, "code.google.com/p/" + name);
  }

  /** The generic rule on `host/owner...`, for a host of the form it accepts. */
  lemma GenericHostMatch(pkg: string, host: string, owner: string, rest: string)
    requires IsHostSegment(host) && '/' !in host && owner != "" && '/' !in owner && AtBoundary(rest)
    requires pkg == host + "/" + owner + rest
    ensures MatchGenericHost(pkg) == Some(host + "/" + owner)
  {
    TwoSegments("", host, owner, rest);
    assert "" + host == host;
  }

  /** A path that starts with p + q starts with p. */
  lemma PrefixOfPrefix(s: string, p: string, q: string)
    ensures HasPrefix(s, p + q) ==> HasPrefix(s, p)
  {
    if HasPrefix(s, p + q) {
      assert s[..|p|] == s[..|p + q|][..|p|];
    }
  }

  /** The first segment of a path that starts with `host/`. */
  lemma HostSegment(pkg: string, host: string)
    requires '/' !in host && HasPrefix(pkg, host + "/")
    ensures SegmentEnd(pkg, 0) == |host| && pkg[..|host|] == host
  {
    forall k | 0 <= k < |host|
      ensures pkg[k] != '/'
    {
      assert pkg[k] == pkg[..|host| + 1][k] == host[k];
    }
    assert pkg[|host|] == pkg[..|host| + 1][|host|];
    SegmentEndAt(pkg, 0, |host|);
    assert pkg[..|host|] == pkg[..|host| + 1][..|host|];
  }

  /** A path starting with `host/` starts with `p/` only when p is host. */
  lemma SameHost(pkg: string, host: string, p: string)
    requires '/' !in host && '/' !in p && HasPrefix(pkg, host + "/")
    ensures HasPrefix(pkg, p + "/") ==> p == host
  {
    HostSegment(pkg, host);
    if HasPrefix(pkg, p + "/") {
      HostSegment(pkg, p);
    }
  }

  /** `host/owner...` for any other host of the form `[a-z]+\.[^/]+`: the
      generic rule, which takes the host and one more segment. */
  lemma GenericHostForm(host: string, owner: string, rest: string)
    requires IsHostSegment(host) && '/' !in host && owner != "" && '/' !in owner && AtBoundary(rest)
    requires host != "gopkg.in" && host != "github.com" && host != "launchpad.net" && host != "code.google.com"
    ensures LocalPackagePrefix(host + "/" + owner + rest) == host + "/" + owner
  {
    var pkg := host + "/" + owner + rest;
    assert HasPrefix(pkg, host + "/") by {
      assert pkg == (host + "/") + (owner + rest);
      PrefixOfConcat(host + "/", owner + rest);
    }
    NoFixedHost(pkg, host);
    GenericHostMatch(pkg, host, owner, rest);
    RuleWins(pkg, 4, host + "/" + owner);
  }

  /** A path whose first segment is none of the four fixed hosts starts with
      none of their prefixes. */
  lemma NoFixedHost(pkg: string, host: string)
    requires '/' !in host && HasPrefix(pkg, host + "/")
    requires host != "gopkg.in" && host != "github.com" && host != "launchpad.net" && host != "code.google.com"
    ensures !HasPrefix(pkg, "gopkg.in/") && !HasPrefix(pkg, "github.com/")
    ensures !HasPrefix(pkg, "launchpad.net/") && !HasPrefix(pkg, "code.google.com/p/")
  {
    SameHost(pkg, host, "gopkg.in");
    SameHost(pkg, host, "github.com");
    SameHost(pkg, host, "launchpad.net");
    SameHost(pkg, host, "code.google.com");
    assert "gopkg.in" + "/" == "gopkg.in/";
    assert "github.com" + "/" == "github.com/";
    assert "launchpad.net" + "/" == "launchpad.net/";
    assert "code.google.com/" + "p/" == "code.google.com/p/";
    PrefixOfPrefix(pkg, "code.google.com/", "p/");
    assert "code.google.com" + "/" == "code.google.com/";
  }

  /** The generic rule also matches every code.google.com path (with the
      shorter capture "code.google.com/p"), so only the order of the table
      gives the longer prefix above. */
  lemma GoogleCodeAlsoGeneric(tail: string)
    ensures MatchGenericHost("code.google.com/p/" + tail) == Some("code.google.com/p")
  {
    GoogleCodeHost();
    GoogleCodeSpelling(tail);
    GenericHostMatch("code.google.com/p/" + tail, "code.google.com", "p", "/" + tail);
  }

  /** code.google.com is a host segment the generic rule accepts. */
  lemma GoogleCodeHost()
    ensures IsHostSegment("code.google.com") && '/' !in "code.google.com"
  {
    LeadingLowerAt("code.google.com", 4);
  }

  /** The code.google.com prefix, spelt as host, owner "p" and the rest. */
  lemma GoogleCodeSpelling(tail: string)
    ensures "code.google.com" + "/" + "p" + ("/" + tail) == "code.google.com/p/" + tail
    ensures "code.google.com" + "/" + "p" == "code.google.com/p"
  {
    var h := "code.google.com/p";
    assert "code.google.com" + "/" + "p" == h;
    assert h + ("/" + tail) == (h + "/") + tail;
    assert h + "/" == "code.google.com/p/";
  }

  // ---------------------------------------------------------------------------
  // What each capture looks like: the converse of the lemmas above

  /** The run that SegmentEnd measures holds no '/'. */
  lemma SegmentNoSlash(s: string, i: nat)
    requires i <= |s|
    ensures '/' !in s[i..SegmentEnd(s, i)]
  {
    var j := SegmentEnd(s, i);
    forall k | 0 <= k < j - i
      ensures s[i..j][k] != '/'
    {
      assert s[i..j][k] == s[i + k];
    }
  }

  /** SegmentEnd read on a suffix of the text. */
  lemma SegmentEndSuffix(s: string, d: nat, i: nat)
    requires d <= i <= |s|
    ensures SegmentEnd(s[d..], i - d) == SegmentEnd(s, i) - d
  {
    var j := SegmentEnd(s, i);
    var t := s[d..];
    forall k | i - d <= k < j - d
      ensures t[k] != '/'
    {
      assert t[k] == s[k + d];
    }
    if j < |s| {
      assert t[j - d] == s[j];
    }
    SegmentEndAt(t, i - d, j - d);
  }

  /** A path cut after a head of length h, at a segment that ends at a
      boundary e. */
  lemma CutOne(pkg: string, h: nat, e: nat) returns (name: string, rest: string)
    requires h <= e <= |pkg| && (e == |pkg| || pkg[e] == '/')
    ensures name == pkg[h..e] && rest == pkg[e..]
    ensures pkg[..e] == pkg[..h] + name && pkg == pkg[..e] + rest
    ensures AtBoundary(rest)
  {
    name, rest := pkg[h..e], pkg[e..];
    assert pkg == pkg[..e] + rest;
    if e < |pkg| {
      assert rest[0] == pkg[e];
    }
  }

  /** A path cut after a head of length h, at a '/' at e1 and at a boundary
      e2 after it. */
  lemma CutTwo(pkg: string, h: nat, e1: nat, e2: nat) returns (first: string, second: string, rest: string)
    requires h <= e1 < e2 <= |pkg| && pkg[e1] == '/' && (e2 == |pkg| || pkg[e2] == '/')
    ensures first == pkg[h..e1] && second == pkg[e1 + 1..e2] && rest == pkg[e2..]
    ensures pkg[..e2] == pkg[..h] + first + "/" + second == pkg[..h] + (first + "/") + second
    ensures pkg == pkg[..e2] + rest
    ensures AtBoundary(rest)
  {
    first, second, rest := pkg[h..e1], pkg[e1 + 1..e2], pkg[e2..];
    assert pkg[e1..e1 + 1] == "/";
    assert pkg[..e2] == pkg[..h] + first + "/" + second;
    assert pkg[..h] + first + "/" + second == pkg[..h] + (first + "/") + second;
    assert pkg == pkg[..e2] + rest;
    if e2 < |pkg| {
      assert rest[0] == pkg[e2];
    }
  }

  /** A capture of the versioned gopkg.in rule is "gopkg.in/", an optional
      owner segment with its '/', and a versioned name that ends at '/' or at
      the end of the path; when there is no owner segment, the segment after
      the name (if any) is not versioned, since the owner form is tried first. */
  lemma GopkgCapture(pkg: string, c: string) returns (lead: string, name: string, rest: string)
    requires MatchVersionedGopkg(pkg) == Some(c)
    ensures c == "gopkg.in/" + lead + name && pkg == c + rest
    ensures lead == "" || (lead[|lead| - 1] == '/' && '/' !in lead[..|lead| - 1])
    ensures '/' !in name && VersionedShape(name) && AtBoundary(rest)
    ensures lead == "" && rest != "" ==> !VersionedShape(rest[1..SegmentEnd(rest, 1)])
  {
    var e1 := SegmentEnd(pkg, |"gopkg.in/"|);
    if e1 < |pkg| && IsVersioned(pkg[e1 + 1..SegmentEnd(pkg, e1 + 1)]) {
      lead, name, rest := GopkgOwnerCapture(pkg, c, e1);
    } else {
      lead, name, rest := GopkgNameCapture(pkg, c, e1);
    }
  }

  /** The capture when the segment after the first one is versioned. */
  lemma GopkgOwnerCapture(pkg: string, c: string, e1: nat) returns (lead: string, name: string, rest: string)
    requires MatchVersionedGopkg(pkg) == Some(c) && e1 == SegmentEnd(pkg, |"gopkg.in/"|)
    requires e1 < |pkg| && IsVersioned(pkg[e1 + 1..SegmentEnd(pkg, e1 + 1)])
    ensures lead != ""
    ensures c == "gopkg.in/" + lead + name && pkg == c + rest
    ensures lead == "" || (lead[|lead| - 1] == '/' && '/' !in lead[..|lead| - 1])
    ensures '/' !in name && VersionedShape(name) && AtBoundary(rest)
  {
    var e2 := SegmentEnd(pkg, e1 + 1);
    GopkgOwnerBranch(pkg, c, e1, e2);
    lead, name, rest := GopkgOwnerPieces(pkg, e1, e2);
  }

  /** Which text the versioned rule captures in its owner form. */
  lemma GopkgOwnerBranch(pkg: string, c: string, e1: nat, e2: nat)
    requires MatchVersionedGopkg(pkg) == Some(c) && e1 == SegmentEnd(pkg, |"gopkg.in/"|)
    requires e1 < |pkg| && e2 == SegmentEnd(pkg, e1 + 1) && IsVersioned(pkg[e1 + 1..e2])
    ensures HasPrefix(pkg, "gopkg.in/") && c == pkg[..e2]
  {
  }

  /** The capture when the segment after the first one is absent or not
      versioned. */
  lemma GopkgNameCapture(pkg: string, c: string, e1: nat) returns (lead: string, name: string, rest: string)
    requires MatchVersionedGopkg(pkg) == Some(c) && e1 == SegmentEnd(pkg, |"gopkg.in/"|)
    requires e1 < |pkg| ==> !IsVersioned(pkg[e1 + 1..SegmentEnd(pkg, e1 + 1)])
    ensures c == "gopkg.in/" + lead + name && pkg == c + rest
    ensures lead == "" || (lead[|lead| - 1] == '/' && '/' !in lead[..|lead| - 1])
    ensures '/' !in name && VersionedShape(name) && AtBoundary(rest)
    ensures lead == "" && rest != "" ==> !VersionedShape(rest[1..SegmentEnd(rest, 1)])
    ensures lead == ""
  {
    GopkgNameBranch(pkg, c, e1);
    lead := "";
    name, rest := GopkgNamePieces(pkg, e1);
    assert "gopkg.in/" + lead == "gopkg.in/";
  }

  /** Which text the versioned rule captures in its one-segment form. */
  lemma GopkgNameBranch(pkg: string, c: string, e1: nat)
    requires MatchVersionedGopkg(pkg) == Some(c) && e1 == SegmentEnd(pkg, |"gopkg.in/"|)
    requires e1 < |pkg| ==> !IsVersioned(pkg[e1 + 1..SegmentEnd(pkg, e1 + 1)])
    ensures HasPrefix(pkg, "gopkg.in/") && IsVersioned(pkg[|"gopkg.in/"|..e1]) && c == pkg[..e1]
  {
  }

  /** The owner form of the versioned rule, cut into its pieces. */
  lemma GopkgOwnerPieces(pkg: string, e1: nat, e2: nat) returns (lead: string, name: string, rest: string)
    requires HasPrefix(pkg, "gopkg.in/") && e1 == SegmentEnd(pkg, |"gopkg.in/"|) && e1 < |pkg|
    requires e2 == SegmentEnd(pkg, e1 + 1) && IsVersioned(pkg[e1 + 1..e2])
    ensures pkg[..e2] == "gopkg.in/" + lead + name && pkg == pkg[..e2] + rest
    ensures lead != "" && lead[|lead| - 1] == '/' && '/' !in lead[..|lead| - 1]
    ensures '/' !in name && VersionedShape(name) && AtBoundary(rest)
  {
    var owner;
    owner, name, rest := CutTwo(pkg, |"gopkg.in/"|, e1, e2);
    lead := owner + "/";
    assert lead[..|lead| - 1] == owner;
    SegmentNoSlash(pkg, |"gopkg.in/"|);
    SegmentNoSlash(pkg, e1 + 1);
    IsVersionedIff(name);
  }

  /** The one-segment form of the versioned rule, cut into its pieces; when
      the path goes on, the segment after the name is not versioned. */
  lemma GopkgNamePieces(pkg: string, e1: nat) returns (name: string, rest: string)
    requires HasPrefix(pkg, "gopkg.in/") && e1 == SegmentEnd(pkg, |"gopkg.in/"|) && IsVersioned(pkg[|"gopkg.in/"|..e1])
    requires e1 < |pkg| ==> !IsVersioned(pkg[e1 + 1..SegmentEnd(pkg, e1 + 1)])
    ensures pkg[..e1] == "gopkg.in/" + name && pkg == pkg[..e1] + rest
    ensures '/' !in name && VersionedShape(name) && AtBoundary(rest)
    ensures rest != "" ==> !VersionedShape(rest[1..SegmentEnd(rest, 1)])
  {
    name, rest := CutOne(pkg, |"gopkg.in/"|, e1);
    SegmentNoSlash(pkg, |"gopkg.in/"|);
    IsVersionedIff(name);
    if rest != "" {
      NextSegmentNotVersioned(pkg, e1);
    }
  }

  /** The segment after position e1, read on the rest of the path. */
  lemma NextSegmentNotVersioned(pkg: string, e1: nat)
    requires e1 < |pkg| && !IsVersioned(pkg[e1 + 1..SegmentEnd(pkg, e1 + 1)])
    ensures var rest := pkg[e1..]; !VersionedShape(rest[1..SegmentEnd(rest, 1)])
  {
    var rest := pkg[e1..];
    SegmentEndSuffix(pkg, e1, e1 + 1);
    assert rest[1..SegmentEnd(rest, 1)] == pkg[e1 + 1..SegmentEnd(pkg, e1 + 1)];
    IsVersionedIff(rest[1..SegmentEnd(rest, 1)]);
  }

  /** A capture of the github.com rule is the host, a non-empty owner and a
      non-empty repository, and ends at '/' or at the end of the path. */
  lemma GitHubCapture(pkg: string, c: string) returns (owner: string, repo: string, rest: string)
    requires MatchGitHub(pkg) == Some(c)
    ensures c == "github.com/" + owner + "/" + repo && pkg == c + rest
    ensures owner != "" && repo != "" && '/' !in owner && '/' !in repo && AtBoundary(rest)
  {
    var h := |"github.com/"|;
    var e1 := SegmentEnd(pkg, h);
    var e2 := SegmentEnd(pkg, e1 + 1);
    owner, repo, rest := CutTwo(pkg, h, e1, e2);
    SegmentNoSlash(pkg, h);
    SegmentNoSlash(pkg, e1 + 1);
  }

  /** A capture of the launchpad.net or code.google.com rule is the host and
      one non-empty segment, and ends at '/' or at the end of the path. */
  lemma HostThenSegmentCapture(host: string, pkg: string, c: string) returns (name: string, rest: string)
    requires MatchHostThenSegment(host, pkg) == Some(c)
    ensures c == host + name && pkg == c + rest
    ensures name != "" && '/' !in name && AtBoundary(rest)
  {
    name, rest := CutOne(pkg, |host|, SegmentEnd(pkg, |host|));
    SegmentNoSlash(pkg, |host|);
  }

  /** A capture of the generic rule is a whole first segment of the form
      `[a-z]+\.[^/]+`, a '/', and a non-empty segment that ends at '/' or at
      the end of the path. */
  lemma GenericHostCapture(pkg: string, c: string) returns (host: string, owner: string, rest: string)
    requires MatchGenericHost(pkg) == Some(c)
    ensures c == host + "/" + owner && pkg == c + rest
    ensures IsHostSegment(host) && '/' !in host && owner != "" && '/' !in owner && AtBoundary(rest)
  {
    var e1 := SegmentEnd(pkg, 0);
    var e2 := SegmentEnd(pkg, e1 + 1);
    host, owner, rest := CutTwo(pkg, 0, e1, e2);
    assert pkg[..0] + host == host == pkg[..e1];
    SegmentNoSlash(pkg, 0);
    SegmentNoSlash(pkg, e1 + 1);
  }

  /** A host prefix with a dot at d, before any '/': a path that starts with
      that host has the dot inside its first segment. */
  lemma HostDot(pkg: string, p: string, d: nat)
    requires d < |p| && p[d] == '.' && forall k :: 0 <= k <= d ==> p[k] != '/'
    ensures HasPrefix(pkg, p) ==> d < SegmentEnd(pkg, 0) && pkg[d] == '.'
  {
    if HasPrefix(pkg, p) {
      forall k | 0 <= k <= d
        ensures pkg[k] == p[k]
      {
        assert pkg[..|p|][k] == pkg[k];
      }
    }
  }

  /** A path whose first segment has no '.' (the standard library's form)
      matches no rule: every rule needs a dot in the host segment. */
  lemma NoDotNoPrefix(pkg: string)
    requires forall k :: 0 <= k < SegmentEnd(pkg, 0) ==> pkg[k] != '.'
    ensures LocalPackagePrefix(pkg) == ""
  {
    var e := SegmentEnd(pkg, 0);
    HostDot(pkg, "gopkg.in/", 5);
    HostDot(pkg, "github.com/", 6);
    HostDot(pkg, "launchpad.net/", 9);
    HostDot(pkg, "code.google.com/p/", 4);
    assert forall n :: 0 <= n < e ==> pkg[..e][n] != '.';
    assert !IsHostSegment(pkg[..e]);
    assert forall i :: 0 <= i < |Matchers| ==> Match(Matchers[i], pkg).None?;
  }
}
