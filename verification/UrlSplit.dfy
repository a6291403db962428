/** The URL splitting that tools/observatory_export.py relies on: `split_target` over
    Python's `urlsplit`, components as in section 3 of RFC 3986. */
module UrlSplit {

  import opened Text

  predicate IsUnsafe(c: char) {
    c == '\t' || c == '\r' || c == '\n'
  }

  /** C0 control characters and the space. */
  predicate IsControl(c: char) {
    c as int <= 32
  }

  predicate IsAlpha(c: char) {
    'a' <= c <= 'z' || 'A' <= c <= 'Z'
  }

  predicate IsSchemeChar(c: char) {
    IsAlpha(c) || '0' <= c <= '9' || c == '+' || c == '-' || c == '.'
  }

  predicate IsColon(c: char) {
    c == ':'
  }

  predicate IsHash(c: char) {
    c == '#'
  }

  predicate IsQuestion(c: char) {
    c == '?'
  }

  predicate EndsNetloc(c: char) {
    c == '/' || c == '?' || c == '#'
  }

  function Without(s: string, p: char -> bool): (r: string)
    ensures forall c | c in r :: !p(c) && c in s
    ensures (forall c | c in s :: !p(c)) ==> r == s
  {
    if s == "" then ""
    else if p(s[0]) then Without(s[1..], p)
    else
      var r := [s[0]] + Without(s[1..], p);
      assert s == [s[0]] + s[1..];
      r
  }

  /** The first place where `stop` holds, or the end. */
  function Until(s: string, stop: char -> bool): (n: nat)
    ensures n <= |s|
    ensures forall i | 0 <= i < n :: !stop(s[i])
    ensures n < |s| ==> stop(s[n])
  {
    if s == "" || stop(s[0]) then 0 else 1 + Until(s[1..], stop)
  }

  lemma UntilIs(s: string, stop: char -> bool, n: nat)
    requires n <= |s|
    requires forall i | 0 <= i < n :: !stop(s[i])
    requires n < |s| ==> stop(s[n])
    ensures Until(s, stop) == n
  {
  }

  function LowerChar(c: char): (l: char)
    ensures IsSchemeChar(c) ==> IsSchemeChar(l)
    ensures IsAlpha(c) ==> IsAlpha(l)
    ensures !('A' <= l <= 'Z')
  {
    if 'A' <= c <= 'Z' then (c as int + 32) as char else c
  }

  function Lower(s: string): (r: string)
    ensures |r| == |s| && forall i | 0 <= i < |s| :: r[i] == LowerChar(s[i])
  {
    seq(|s|, i requires 0 <= i < |s| => LowerChar(s[i]))
  }

  datatype Parts = Parts(scheme: string, netloc: string, path: string, query: string, fragment: string)

  /** Leading controls and spaces go, then every tab and line break. */
  function Clean(url: string): string {
    Without(LStrip(url, IsControl), IsUnsafe)
  }

  predicate IsScheme(s: string) {
    s != "" && IsAlpha(s[0]) && AllOf(s, IsSchemeChar)
  }

  /** A scheme ends at the first colon, if what precedes it is one. */
  function SplitScheme(url: string): (string, string) {
    var i := Until(url, IsColon);
    if i < |url| && IsScheme(url[..i]) then (Lower(url[..i]), url[i + 1..]) else ("", url)
  }

  predicate HasAuthority(url: string) {
    |url| >= 2 && url[0] == '/' && url[1] == '/'
  }

  /** The authority and the rest. */
  function SplitNetloc(url: string): (string, string) {
    if HasAuthority(url) then
      var tail := url[2..];
      var d := Until(tail, EndsNetloc);
      (tail[..d], tail[d..])
    else ("", url)
  }

  /** Before and after the first `stop`; the second part is empty when there is none. */
  function Cut(s: string, stop: char -> bool): (string, string) {
    var i := Until(s, stop);
    (s[..i], if i < |s| then s[i + 1..] else "")
  }

  function SplitUrl(url: string): Parts {
    var (scheme, afterScheme) := SplitScheme(Clean(url));
    var (netloc, afterNetloc) := SplitNetloc(afterScheme);
    var (beforeFragment, fragment) := Cut(afterNetloc, IsHash);
    var (path, query) := Cut(beforeFragment, IsQuestion);
    Parts(scheme, netloc, path, query, fragment)
  }

  predicate HasSlashes(s: string) {
    exists i | 0 <= i < |s| - 1 :: s[i] == s[i + 1] == '/'
  }

  /** A target without `//` is read as a host; a missing scheme is https, a missing path /. */
  function SplitTarget(target: string): Parts {
    var p := SplitUrl(if HasSlashes(target) then target else "//" + target);
    p.(scheme := if p.scheme == "" then "https" else p.scheme, path := if p.path == "" then "/" else p.path)
  }

  function Build(p: Parts): string {
    p.scheme + "://" + p.netloc + p.path
  }

  /** The redacted target; with `full` the query is kept. */
  function Redacted(p: Parts, full: bool): string {
    if full && p.query != "" then Build(p) + "?" + p.query else Build(p)
  }

  // ----- what splitting yields ------------------------------------------------------------

  ghost predicate NoneOf(s: string, p: char -> bool) {
    forall c | c in s :: !p(c)
  }

  /** The parts of a target with a host: what can be put together again. */
  ghost predicate Regular(p: Parts) {
    && IsScheme(p.scheme) && Lower(p.scheme) == p.scheme
    && NoneOf(p.netloc, EndsNetloc) && NoneOf(p.netloc, IsUnsafe)
    && p.path != "" && p.path[0] == '/' && NoneOf(p.path, IsHash) && NoneOf(p.path, IsQuestion) && NoneOf(p.path, IsUnsafe)
    && NoneOf(p.query, IsHash) && NoneOf(p.query, IsUnsafe)
  }

  lemma SchemeIsRegular(url: string)
    ensures var s := SplitScheme(url).0; s != "" ==> IsScheme(s) && Lower(s) == s
    ensures var rest := SplitScheme(url).1; exists k | 0 <= k <= |url| :: rest == url[k..]
  {
    var i := Until(url, IsColon);
    if i < |url| && IsScheme(url[..i]) {
      LowerIsStable(url[..i]);
    } else {
      assert url == url[0..];
    }
  }

  lemma LowerIsStable(s: string)
    requires IsScheme(s)
    ensures IsScheme(Lower(s)) && Lower(Lower(s)) == Lower(s)
  {
    var l := Lower(s);
    forall c | c in l ensures IsSchemeChar(c) {
      var i :| 0 <= i < |l| && l[i] == c;
      assert s[i] in s;
    }
  }

  lemma CutIsRegular(s: string, stop: char -> bool)
    ensures var (a, b) := Cut(s, stop);
            NoneOf(a, stop) && (forall c | c in a || c in b :: c in s) && a <= s
  {
  }

  lemma NetlocIsRegular(url: string)
    ensures var (netloc, rest) := SplitNetloc(url);
            && NoneOf(netloc, EndsNetloc)
            && (forall c | c in netloc || c in rest :: c in url)
            && (netloc != "" && rest != "" ==> EndsNetloc(rest[0]))
  {
  }

  lemma TargetIsRegular(target: string)
    requires SplitTarget(target).netloc != ""
    ensures Regular(SplitTarget(target))
  {
    hide SplitScheme, SplitNetloc, Cut, Clean, IsScheme, HasSlashes;
    var url := if HasSlashes(target) then target else "//" + target;
    CleanIsSafe(url);
    var clean := Clean(url);
    SchemeIsRegular(clean);
    var (scheme, afterScheme) := SplitScheme(clean);
    NetlocIsRegular(afterScheme);
    var (netloc, afterNetloc) := SplitNetloc(afterScheme);
    CutIsRegular(afterNetloc, IsHash);
    var (beforeFragment, fragment) := Cut(afterNetloc, IsHash);
    CutIsRegular(beforeFragment, IsQuestion);
    var (path, query) := Cut(beforeFragment, IsQuestion);
    HttpsIsScheme();
    PathStarts(afterNetloc, beforeFragment, path);
    assert NoneOf(netloc, IsUnsafe) && NoneOf(path, IsUnsafe) && NoneOf(query, IsUnsafe);
    assert SplitUrl(url) == Parts(scheme, netloc, path, query, fragment);
  }

  lemma PathStarts(rest: string, before: string, path: string)
    requires rest != "" ==> EndsNetloc(rest[0])
    requires path <= before <= rest && NoneOf(before, IsHash) && NoneOf(path, IsQuestion)
    ensures path != "" ==> path[0] == '/'
    ensures NoneOf(path, IsHash)
  {
    if path != "" {
      assert path[0] == before[0] == rest[0];
      assert path[0] in path && before[0] in before;
    }
  }

  lemma CleanIsSafe(url: string)
    ensures NoneOf(Clean(url), IsUnsafe)
  {
  }

  lemma HttpsIsScheme()
    ensures IsScheme("https") && Lower("https") == "https"
  {
  }

  // ----- splitting what was put together -----------------------------------------------

  lemma CutNone(s: string, stop: char -> bool)
    requires NoneOf(s, stop)
    ensures Cut(s, stop) == (s, "")
  {
    UntilIs(s, stop, |s|);
    assert s[..|s|] == s;
  }

  lemma CutAt(a: string, c: char, b: string, stop: char -> bool)
    requires NoneOf(a, stop) && stop(c)
    ensures Cut(a + [c] + b, stop) == (a, b)
  {
    var s := a + [c] + b;
    forall i | 0 <= i < |a| ensures !stop(s[i]) {
      assert s[i] == a[i] && a[i] in a;
    }
    UntilIs(s, stop, |a|);
    assert s[..|a|] == a && s[|a| + 1..] == b;
  }

  lemma CleanKeeps(url: string)
    requires url != "" && !IsControl(url[0]) && NoneOf(url, IsUnsafe)
    ensures Clean(url) == url
  {
  }

  lemma SplitsScheme(scheme: string, rest: string)
    requires IsScheme(scheme) && Lower(scheme) == scheme
    ensures SplitScheme(scheme + [':'] + rest) == (scheme, rest)
  {
    hide Lower;
    var s := scheme + [':'] + rest;
    forall i | 0 <= i < |scheme| ensures !IsColon(s[i]) {
      assert s[i] == scheme[i] && scheme[i] in scheme;
    }
    UntilIs(s, IsColon, |scheme|);
    assert s[..|scheme|] == scheme && s[|scheme| + 1..] == rest;
  }

  lemma SplitsNetloc(netloc: string, rest: string)
    requires NoneOf(netloc, EndsNetloc) && rest != "" && rest[0] == '/'
    ensures SplitNetloc(['/', '/'] + netloc + rest) == (netloc, rest)
  {
    var url := ['/', '/'] + netloc + rest;
    var tail := netloc + rest;
    assert url[2..] == tail;
    forall i | 0 <= i < |netloc| ensures !EndsNetloc(tail[i]) {
      assert tail[i] == netloc[i] && netloc[i] in netloc;
    }
    UntilIs(tail, EndsNetloc, |netloc|);
    assert tail[..|netloc|] == netloc && tail[|netloc|..] == rest;
  }

  /** The path and the query of what follows the authority. */
  lemma SplitsPath(path: string, query: string, tail: string)
    requires NoneOf(path, IsHash) && NoneOf(path, IsQuestion) && NoneOf(query, IsHash)
    requires tail == (if query == "" then path else path + ['?'] + query)
    ensures Cut(tail, IsHash) == (tail, "") && Cut(tail, IsQuestion) == (path, query)
  {
    hide Cut;
    CutNone(tail, IsHash);
    if query == "" {
      CutNone(path, IsQuestion);
    } else {
      CutAt(path, '?', query, IsQuestion);
    }
  }

  function Tail(p: Parts, full: bool): string {
    if full && p.query != "" then p.path + ['?'] + p.query else p.path
  }

  lemma RedactedText(p: Parts, full: bool)
    ensures Redacted(p, full) == p.scheme + [':'] + (['/', '/'] + p.netloc + Tail(p, full))
  {
  }

  lemma RegularText(p: Parts, full: bool)
    requires Regular(p)
    ensures var url := p.scheme + [':'] + (['/', '/'] + p.netloc + Tail(p, full));
            Clean(url) == url && HasSlashes(url)
  {
    var rest := ['/', '/'] + p.netloc + Tail(p, full);
    var url := p.scheme + [':'] + rest;
    assert url[0] == p.scheme[0];
    assert NoneOf(Tail(p, full), IsUnsafe) && NoneOf(p.scheme, IsUnsafe);
    CleanKeeps(url);
    assert url[|p.scheme| + 1] == rest[0] && url[|p.scheme| + 2] == rest[1];
  }

  /** Splitting a redacted target gives the parts it was put together from. */
  lemma SplitRedacted(p: Parts, full: bool)
    requires Regular(p)
    ensures SplitTarget(Redacted(p, full)) == p.(query := if full then p.query else "", fragment := "")
  {
    hide SplitScheme, SplitNetloc, Cut, Clean, HasSlashes, Lower, Redacted;
    var tail := Tail(p, full);
    var query := if full then p.query else "";
    var rest := ['/', '/'] + p.netloc + tail;
    var url := p.scheme + [':'] + rest;
    RedactedText(p, full);
    RegularText(p, full);
    SplitsScheme(p.scheme, rest);
    assert tail[0] == p.path[0];
    SplitsNetloc(p.netloc, tail);
    SplitsPath(p.path, query, tail);
    assert SplitUrl(url) == Parts(p.scheme, p.netloc, p.path, query, "");
  }

  // ----- targets as they are written --------------------------------------------------------

  predicate NoneIn(s: string, chars: set<char>) {
    forall c | c in s :: c !in chars
  }

  /** A letter, then letters, digits, plus, minus and dots. */
  predicate SchemeText(s: string) {
    && s != "" && ('a' <= s[0] <= 'z' || 'A' <= s[0] <= 'Z')
    && forall c | c in s :: 'a' <= c <= 'z' || 'A' <= c <= 'Z' || '0' <= c <= '9' || c in {'+', '-', '.'}
  }

  /** What may stand behind a host: a path from its first slash, a query behind `?`, a fragment
      behind `#`, each of them present or not. */
  datatype Rest = Rest(path: string, query: Option<string>, fragment: Option<string>)

  predicate RestText(r: Rest) {
    && (r.path == "" || r.path[0] == '/') && NoneIn(r.path, {'?', '#', '\t', '\r', '\n'})
    && (r.query.Some? ==> NoneIn(r.query.value, {'#', '\t', '\r', '\n'}))
    && (r.fragment.Some? ==> NoneIn(r.fragment.value, {'\t', '\r', '\n'}))
  }

  function Marked(mark: char, part: Option<string>): string {
    if part.Some? then [mark] + part.value else ""
  }

  function RestOf(r: Rest): string {
    r.path + Marked('?', r.query) + Marked('#', r.fragment)
  }

  function Given(part: Option<string>): string {
    if part.Some? then part.value else ""
  }

  /** Before the first mark, and what stands behind it. */
  lemma CutMarked(a: string, mark: char, part: Option<string>, stop: char -> bool)
    requires NoneOf(a, stop) && stop(mark)
    ensures Cut(a + Marked(mark, part), stop) == (a, Given(part))
  {
    if part.Some? {
      CutAt(a, mark, part.value, stop);
      assert a + ([mark] + part.value) == a + [mark] + part.value;
    } else {
      CutNone(a, stop);
      assert a + "" == a;
    }
  }

  lemma RestIsCut(r: Rest)
    requires RestText(r)
    ensures var front := r.path + Marked('?', r.query);
            Cut(RestOf(r), IsHash) == (front, Given(r.fragment)) && Cut(front, IsQuestion) == (r.path, Given(r.query))
  {
    var front := r.path + Marked('?', r.query);
    assert NoneOf(front, IsHash) && NoneOf(r.path, IsQuestion);
    CutMarked(front, '#', r.fragment, IsHash);
    CutMarked(r.path, '?', r.query, IsQuestion);
  }

  lemma NetlocBeforeRest(host: string, r: Rest)
    requires NoneIn(host, {'/', '?', '#'}) && RestText(r)
    ensures SplitNetloc(['/', '/'] + (host + RestOf(r))) == (host, RestOf(r))
  {
    var tail := host + RestOf(r);
    var url := ['/', '/'] + tail;
    assert url[2..] == tail;
    forall i | 0 <= i < |host| ensures !EndsNetloc(tail[i]) {
      assert tail[i] == host[i] && host[i] in host;
    }
    assert RestOf(r) != "" ==> tail[|host|] == RestOf(r)[0] && EndsNetloc(RestOf(r)[0]);
    UntilIs(tail, EndsNetloc, |host|);
    assert tail[..|host|] == host && tail[|host|..] == RestOf(r);
  }

  lemma RestIsSafe(host: string, r: Rest)
    requires NoneIn(host, {'/', '?', '#', '\t', '\r', '\n'}) && RestText(r)
    ensures NoneOf(['/', '/'] + (host + RestOf(r)), IsUnsafe)
  {
  }

  lemma SchemeTextIsScheme(scheme: string, rest: string)
    requires SchemeText(scheme)
    ensures SplitScheme(scheme + [':'] + rest) == (Lower(scheme), rest)
    ensures NoneOf(scheme, IsUnsafe) && !IsControl(scheme[0])
  {
    hide Lower;
    var s := scheme + [':'] + rest;
    assert IsScheme(scheme) by {
      assert forall c | c in scheme :: IsSchemeChar(c);
    }
    forall i | 0 <= i < |scheme| ensures !IsColon(s[i]) {
      assert s[i] == scheme[i] && scheme[i] in scheme;
    }
    UntilIs(s, IsColon, |scheme|);
    assert s[..|scheme|] == scheme && s[|scheme| + 1..] == rest;
  }

  lemma PadIsStripped(pad: string, url: string)
    requires (forall c | c in pad :: c as int <= 0x20) && url != "" && url[0] as int > 0x20
    requires NoneOf(url, IsUnsafe)
    ensures Clean(pad + url) == url
  {
    assert AllOf(pad, IsControl) && !IsControl(url[0]);
    LStripPadding(pad, url, IsControl);
  }

  lemma PartsOfAuthority(scheme: string, host: string, r: Rest, url: string)
    requires NoneIn(host, {'/', '?', '#'}) && RestText(r)
    requires SplitScheme(Clean(url)) == (scheme, ['/', '/'] + (host + RestOf(r)))
    ensures SplitUrl(url) == Parts(scheme, host, r.path, Given(r.query), Given(r.fragment))
  {
    NetlocBeforeRest(host, r);
    RestIsCut(r);
    hide SplitScheme, SplitNetloc, Cut, Clean;
  }

  /** A written target with a scheme, blanks and control characters before it: its parts are
      those written, the scheme in lower case, a missing path read as `/`. */
  lemma WrittenTargetReads(pad: string, scheme: string, host: string, r: Rest)
    requires (forall c | c in pad :: c as int <= 0x20) && SchemeText(scheme)
    requires NoneIn(host, {'/', '?', '#', '\t', '\r', '\n'}) && RestText(r)
    ensures SplitTarget(pad + (scheme + [':'] + (['/', '/'] + (host + RestOf(r))))) ==
              Parts(Lower(scheme), host, if r.path == "" then "/" else r.path, Given(r.query), Given(r.fragment))
  {
    var rest := ['/', '/'] + (host + RestOf(r));
    var url := scheme + [':'] + rest;
    var target := pad + url;
    SchemeTextIsScheme(scheme, rest);
    RestIsSafe(host, r);
    assert url[0] == scheme[0] && NoneOf(url, IsUnsafe);
    PadIsStripped(pad, url);
    var n := |pad| + |scheme| + 1;
    assert target[n] == rest[0] && target[n + 1] == rest[1];
    assert HasSlashes(target);
    hide SplitScheme, SplitUrl, Clean, HasSlashes, RestText;
    PartsOfAuthority(Lower(scheme), host, r, target);
  }

  lemma DroppedInside(a: string, c: char, b: string)
    requires IsUnsafe(c)
    ensures Without(a + [c] + b, IsUnsafe) == Without(a + b, IsUnsafe)
  {
    assert [c][1..] == "" && Without([c], IsUnsafe) == "";
    hide Without;
    WithoutSplits(a + [c], b, IsUnsafe);
    WithoutSplits(a, [c], IsUnsafe);
    WithoutSplits(a, b, IsUnsafe);
    assert Without(a, IsUnsafe) + "" == Without(a, IsUnsafe);
  }

  lemma CleanWithoutLead(url: string)
    requires url != "" && !IsControl(url[0])
    ensures Clean(url) == Without(url, IsUnsafe)
  {
    hide Without;
  }

  /** A tab, a carriage return or a line feed inside a URL changes nothing. */
  lemma UnsafeIsDropped(a: string, c: char, b: string)
    requires a != "" && a[0] as int > 0x20 && c in {'\t', '\r', '\n'}
    ensures SplitUrl(a + [c] + b) == SplitUrl(a + b)
  {
    assert (a + [c] + b)[0] == a[0] && (a + b)[0] == a[0] && !IsControl(a[0]) && IsUnsafe(c);
    hide SplitUrl, Clean, Without, IsUnsafe, IsControl;
    CleanWithoutLead(a + [c] + b);
    CleanWithoutLead(a + b);
    DroppedInside(a, c, b);
    SameCleaned(a + [c] + b, a + b);
  }

  lemma SameCleaned(one: string, two: string)
    requires Clean(one) == Clean(two)
    ensures SplitUrl(one) == SplitUrl(two)
  {
    hide Clean, SplitScheme, SplitNetloc, Cut;
  }

  /** A written target that starts with its `//`, and one without any `//`: the scheme is https. */
  lemma SchemelessTargetReads(host: string, r: Rest)
    requires NoneIn(host, {'/', '?', '#', '\t', '\r', '\n'}) && RestText(r)
    ensures var p := Parts("https", host, if r.path == "" then "/" else r.path, Given(r.query), Given(r.fragment));
            && SplitTarget(['/', '/'] + (host + RestOf(r))) == p
            && (!HasSlashes(host + RestOf(r)) ==> SplitTarget(host + RestOf(r)) == p)
  {
    var url := ['/', '/'] + (host + RestOf(r));
    RestIsSafe(host, r);
    PadIsStripped("", url);
    assert "" + url == url && url == "//" + (host + RestOf(r));
    NoScheme(url);
    assert url[0] == url[0 + 1] == '/';
    hide SplitScheme, SplitUrl, Clean, RestText;
    PartsOfAuthority("", host, r, url);
  }

  // ----- a dropped tail --------------------------------------------------------------------

  predicate StartsDropped(s: string) {
    s != "" && (s[0] == '?' || s[0] == '#')
  }

  predicate EndsPath(c: char) {
    c == '?' || c == '#'
  }

  lemma {:induction false} WithoutSplits(a: string, b: string, p: char -> bool)
    ensures Without(a + b, p) == Without(a, p) + Without(b, p)
  {
    if a == "" {
      assert a + b == b;
    } else {
      assert (a + b)[1..] == a[1..] + b;
      WithoutSplits(a[1..], b, p);
    }
  }

  lemma {:induction false} LStripBefore(a: string, b: string, p: char -> bool)
    requires b != "" && !p(b[0])
    ensures LStrip(a + b, p) == LStrip(a, p) + b
  {
    if a == "" {
      assert a + b == b;
    } else {
      assert (a + b)[1..] == a[1..] + b;
      LStripBefore(a[1..], b, p);
    }
  }

  lemma CleanBefore(a: string, s: string)
    requires StartsDropped(s)
    ensures Clean(a + s) == Clean(a) + Without(s, IsUnsafe) && StartsDropped(Without(s, IsUnsafe))
  {
    KeepsFirst(s);
    hide LStrip, Without;
    LStripBefore(a, s, IsControl);
    WithoutSplits(LStrip(a, IsControl), s, IsUnsafe);
  }

  lemma KeepsFirst(s: string)
    requires StartsDropped(s)
    ensures StartsDropped(Without(s, IsUnsafe))
  {
  }

  lemma UntilBefore(a: string, s: string, stop: char -> bool)
    requires s != ""
    ensures Until(a, stop) < |a| || stop(s[0]) ==> Until(a + s, stop) == Until(a, stop)
    ensures Until(a, stop) == |a| && !stop(s[0]) ==> Until(a + s, stop) > |a|
  {
    var n := Until(a, stop);
    var t := a + s;
    assert forall i | 0 <= i < |a| :: t[i] == a[i];
    assert t[|a|] == s[0];
    if n < |a| || stop(s[0]) {
      UntilIs(t, stop, n);
    }
  }

  lemma SchemeBefore(a: string, s: string)
    requires StartsDropped(s)
    ensures SplitScheme(a + s) == (SplitScheme(a).0, SplitScheme(a).1 + s)
  {
    hide Lower;
    UntilBefore(a, s, IsColon);
    var i := Until(a, IsColon);
    var j := Until(a + s, IsColon);
    if i < |a| {
      assert (a + s)[..i] == a[..i] && (a + s)[i + 1..] == a[i + 1..] + s;
    } else {
      assert (a + s)[..j][|a|] == s[0];
      assert s[0] in (a + s)[..j];
      assert !IsScheme((a + s)[..j]);
    }
  }

  lemma NetlocBefore(a: string, s: string)
    requires StartsDropped(s)
    ensures SplitNetloc(a + s) == (SplitNetloc(a).0, SplitNetloc(a).1 + s)
  {
    if HasAuthority(a) {
      var tail := a[2..];
      assert (a + s)[2..] == tail + s;
      UntilBefore(tail, s, EndsNetloc);
      var d := Until(tail, EndsNetloc);
      assert (tail + s)[..d] == tail[..d] && (tail + s)[d..] == tail[d..] + s;
    }
  }

  /** The path is what precedes the first `?` or `#`. */
  lemma PathIsBeforeDropped(rest: string)
    ensures Cut(Cut(rest, IsHash).0, IsQuestion).0 == rest[..Until(rest, EndsPath)]
  {
    var h := Until(rest, IsHash);
    var before := rest[..h];
    var q := Until(before, IsQuestion);
    assert before[..q] == rest[..q];
    UntilIs(rest, EndsPath, q);
  }

  lemma PathBefore(a: string, s: string)
    requires StartsDropped(s)
    ensures Cut(Cut(a + s, IsHash).0, IsQuestion).0 == Cut(Cut(a, IsHash).0, IsQuestion).0
  {
    PathIsBeforeDropped(a + s);
    PathIsBeforeDropped(a);
    UntilBefore(a, s, EndsPath);
    var n := Until(a, EndsPath);
    assert (a + s)[..n] == a[..n];
  }

  /** A tail starting with `?` or `#` has no part in the scheme, the authority or the path. */
  lemma TailIsDropped(a: string, s: string)
    requires s == "" || StartsDropped(s)
    ensures var p, q := SplitUrl(a + s), SplitUrl(a);
            p.scheme == q.scheme && p.netloc == q.netloc && p.path == q.path
  {
    hide SplitScheme, SplitNetloc, Cut, Clean, StartsDropped;
    if s == "" {
      assert a + s == a;
    } else {
      CleanBefore(a, s);
      var t := Without(s, IsUnsafe);
      SchemeBefore(Clean(a), t);
      var after := SplitScheme(Clean(a)).1;
      NetlocBefore(after, t);
      PathBefore(SplitNetloc(after).1, t);
    }
  }

  // ----- the same text read with and without an authority ----------------------------------

  /** The path read from what follows an authority mark. */
  function PathAfter(tail: string): string {
    var rest := tail[Until(tail, EndsNetloc)..];
    rest[..Until(rest, EndsPath)]
  }

  lemma AuthorityPath(url: string)
    requires HasAuthority(url)
    ensures Cut(Cut(SplitNetloc(url).1, IsHash).0, IsQuestion).0 == PathAfter(url[2..])
    ensures SplitNetloc(url).0 == url[2..][..Until(url[2..], EndsNetloc)]
  {
    PathIsBeforeDropped(SplitNetloc(url).1);
  }

  lemma SchemeHasNoSlash(url: string) returns (k: nat)
    ensures k <= |url| && SplitScheme(url).1 == url[k..] && NoneOf(url[..k], EndsNetloc)
  {
    hide Lower;
    var i := Until(url, IsColon);
    if i < |url| && IsScheme(url[..i]) {
      k := i + 1;
      assert url[..k] == url[..i] + [':'];
    } else {
      k := 0;
      assert url == url[0..];
    }
  }

  lemma {:induction false} LStrippedIsControl(s: string) returns (pad: string)
    ensures s == pad + LStrip(s, IsControl) && NoneOf(pad, EndsNetloc)
  {
    var l := LStrip(s, IsControl);
    pad := s[..|s| - |l|];
    assert s == pad + l;
  }

  /** A target with an authority, tabs and line breaks removed: a mark without `/?#`, `//`, and
      what the host and the path are read from. */
  lemma AuthorityInside(base: string) returns (mark: string, tail: string)
    requires SplitUrl(base).netloc != ""
    ensures Without(base, IsUnsafe) == mark + (['/', '/'] + tail) && NoneOf(mark, EndsNetloc)
    ensures SplitUrl(base).path == PathAfter(tail) && Until(tail, EndsNetloc) > 0
  {
    hide Cut, Until, Without, LStrip, PathAfter, SplitScheme;
    var clean := Clean(base);
    var pad := LStrippedIsControl(base);
    WithoutSplits(pad, LStrip(base, IsControl), IsUnsafe);
    var k := SchemeHasNoSlash(clean);
    var url := SplitScheme(clean).1;
    assert HasAuthority(url);
    AuthorityPath(url);
    mark, tail := Without(pad, IsUnsafe) + clean[..k], url[2..];
    assert clean == clean[..k] + clean[k..];
    assert url == ['/', '/'] + tail;
    assert Without(base, IsUnsafe) == mark + (['/', '/'] + tail);
  }

  /** The same text read as a host: the mark is the host, the rest is all path. */
  lemma ReadAsHost(base: string, mark: string, tail: string)
    requires Without(base, IsUnsafe) == mark + (['/', '/'] + tail) && NoneOf(mark, EndsNetloc)
    ensures SplitUrl("//" + base).path == PathAfter(mark + (['/', '/'] + tail))
  {
    var inner := mark + (['/', '/'] + tail);
    CleanedAsHost(base);
    var clean := ['/', '/'] + inner;
    hide Clean, Cut, SplitNetloc, PathAfter;
    NoScheme(clean);
    AuthorityPath(clean);
    assert clean[2..] == inner;
  }

  lemma CleanedAsHost(base: string)
    ensures Clean("//" + base) == ['/', '/'] + Without(base, IsUnsafe)
  {
    var s := "//" + base;
    assert s == ['/', '/'] + base;
    WithoutSplits(['/', '/'], base, IsUnsafe);
    assert Without(['/', '/'], IsUnsafe) == ['/', '/'];
  }

  lemma NoScheme(url: string)
    requires url != "" && url[0] == '/'
    ensures SplitScheme(url) == ("", url)
  {
  }

  lemma PathAfterMark(mark: string, tail: string)
    requires NoneOf(mark, EndsNetloc)
    ensures PathAfter(mark + (['/', '/'] + tail)) == (['/', '/'] + tail)[..2 + Until(tail, EndsPath)]
  {
    var rest := ['/', '/'] + tail;
    var s := mark + rest;
    forall i | 0 <= i < |mark| ensures !EndsNetloc(s[i]) {
      assert s[i] == mark[i] && mark[i] in mark;
    }
    assert s[|mark|] == rest[0];
    UntilIs(s, EndsNetloc, |mark|);
    hide Until;
    assert s[|mark|..] == rest;
    UntilAfterSlashes(tail);
  }

  lemma UntilAfterSlashes(tail: string)
    ensures Until(['/', '/'] + tail, EndsPath) == 2 + Until(tail, EndsPath)
  {
    var rest, n := ['/', '/'] + tail, Until(tail, EndsPath);
    assert forall i | 2 <= i < |rest| :: rest[i] == tail[i - 2];
    UntilIs(rest, EndsPath, n + 2);
  }

  lemma PathAfterLength(tail: string)
    ensures |PathAfter(tail)| == Until(tail, EndsPath) - Until(tail, EndsNetloc)
  {
    var d := Until(tail, EndsNetloc);
    UntilFrom(tail, d);
  }

  lemma {:induction false} UntilFrom(tail: string, d: nat)
    requires d <= |tail| && forall i | 0 <= i < d :: !EndsPath(tail[i])
    ensures Until(tail, EndsPath) == d + Until(tail[d..], EndsPath)
  {
    if d == 0 {
      assert tail[0..] == tail;
    } else {
      var next := tail[1..];
      assert next[d - 1..] == tail[d..];
      assert forall i | 0 <= i < d - 1 :: next[i] == tail[i + 1];
      UntilFrom(next, d - 1);
    }
  }

  /** Reading one text with its `//` and without it never gives the same path. */
  lemma ReadingsDiffer(base: string)
    requires SplitUrl(base).netloc != ""
    ensures |SplitUrl("//" + base).path| > 1 && |SplitUrl("//" + base).path| > |SplitUrl(base).path|
  {
    hide SplitUrl, PathAfter, Until;
    var mark, tail := AuthorityInside(base);
    ReadAsHost(base, mark, tail);
    PathAfterMark(mark, tail);
    PathAfterLength(tail);
  }
}
