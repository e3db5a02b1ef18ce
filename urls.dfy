/**
 * Relative URLs with a query string, built the way the pages and forms
 * build them (template literals) and read back the way a URL parser reads
 * `searchParams`: cut at the first `#`, take what follows the first `?`,
 * split on `&`, split each piece at its first `=`, and percent-decode
 * (`+` reads as a space).
 */
module Urls {
  import opened Wrappers
  import opened Text

  // ---------------------------------------------------------------------
  // Scanning and splitting
  // ---------------------------------------------------------------------

  /** Index of the first `c` in `s`, or `|s|` when there is none. */
  function Find(s: string, c: char): (i: nat)
    ensures i <= |s|
    ensures i < |s| ==> s[i] == c
    ensures c !in s[..i]
  {
    if s == [] then 0
    else if s[0] == c then 0
    else
      var k := Find(s[1..], c);
      assert s[1..][..k] == s[1..k + 1];
      assert s[..k + 1] == [s[0]] + s[1..k + 1];
      k + 1
  }

  lemma FindAbsent(s: string, c: char)
    requires c !in s
    ensures Find(s, c) == |s|
  {
    assert forall j :: 0 <= j < |s| ==> s[j] != c;
  }

  lemma FindFirst(a: string, c: char, b: string)
    requires c !in a
    ensures Find(a + [c] + b, c) == |a|
  {
    var s := a + [c] + b;
    var i := Find(s, c);
    assert s[|a|] == c;
    assert forall j :: 0 <= j < |a| ==> s[j] != c by {
      forall j | 0 <= j < |a| ensures s[j] != c {
        assert s[j] == a[j] && a[j] in a;
      }
    }
    assert forall j :: 0 <= j < i ==> s[j] != c by {
      forall j | 0 <= j < i ensures s[j] != c {
        assert s[..i][j] == s[j] && s[..i][j] in s[..i];
      }
    }
  }

  /** `s.split(sep)`: the pieces between separators, always at least one. */
  function Split(s: string, sep: char): (parts: seq<string>)
    ensures |parts| >= 1
    decreases |s|
  {
    var k := Find(s, sep);
    if k == |s| then [s] else [s[..k]] + Split(s[k + 1..], sep)
  }

  lemma SplitNoSeparator(s: string, sep: char)
    requires sep !in s
    ensures Split(s, sep) == [s]
  {
    FindAbsent(s, sep);
  }

  lemma SplitAtFirst(a: string, sep: char, b: string)
    requires sep !in a
    ensures Split(a + [sep] + b, sep) == [a] + Split(b, sep)
  {
    var s := a + [sep] + b;
    FindFirst(a, sep, b);
    assert s[..|a|] == a && s[|a| + 1..] == b;
  }

  // ---------------------------------------------------------------------
  // Percent encoding
  // ---------------------------------------------------------------------

  /** `decodeURIComponent` of a query piece: `+` is a space, `%XY` a byte. */
  function PercentDecode(s: string): string
  {
    if s == [] then []
    else if |s| >= 3 && s[0] == '%' && IsHexChar(s[1]) && IsHexChar(s[2]) then
      [(HexValue(s[1]) * 16 + HexValue(s[2])) as char] + PercentDecode(s[3..])
    else if s[0] == '+' then [' '] + PercentDecode(s[1..])
    else [s[0]] + PercentDecode(s[1..])
  }

  lemma {:induction false} DecodePlain(s: string)
    requires '%' !in s && '+' !in s
    ensures PercentDecode(s) == s
  {
    if s != [] {
      assert s[0] in s;
      assert forall c :: c in s[1..] ==> c in s;
      DecodePlain(s[1..]);
      assert [s[0]] + s[1..] == s;
    }
  }

  /** Without `%`, decoding only turns each `+` into a space. */
  lemma {:induction false} DecodeWithoutPercent(s: string)
    requires '%' !in s
    ensures |PercentDecode(s)| == |s|
    ensures forall i :: 0 <= i < |s| ==> PercentDecode(s)[i] == if s[i] == '+' then ' ' else s[i]
  {
    if s != [] {
      assert s[0] in s;
      assert forall c :: c in s[1..] ==> c in s;
      DecodeWithoutPercent(s[1..]);
    }
  }

  /** The characters a query-string value must not carry unescaped. */
  predicate IsQueryDelimiter(c: char) {
    c == '%' || c == '&' || c == '#' || c == '+'
  }

  /** One character of a query value, escaped when it is a delimiter. */
  function EscapeChar(c: char): (e: string)
    ensures '&' !in e && '#' !in e
  {
    if c == '%' then "%25"
    else if c == '&' then "%26"
    else if c == '#' then "%23"
    else if c == '+' then "%2B"
    else [c]
  }

  /**
   * Escapes every character that the query-string parser gives a meaning
   * to; `encodeURIComponent` escapes these and more.
   */
  function Escape(s: string): (e: string)
    ensures '&' !in e && '#' !in e
  {
    if s == [] then [] else EscapeChar(s[0]) + Escape(s[1..])
  }

  lemma DecodeEscapedChar(c: char, t: string)
    ensures PercentDecode(EscapeChar(c) + t) == [c] + PercentDecode(t)
  {
    var s := EscapeChar(c) + t;
    if IsQueryDelimiter(c) {
      assert s[3..] == t;
    } else {
      assert s[1..] == t;
    }
  }

  lemma {:induction false} EscapeRoundTrip(s: string)
    ensures PercentDecode(Escape(s)) == s
  {
    if s != [] {
      EscapeRoundTrip(s[1..]);
      DecodeEscapedChar(s[0], Escape(s[1..]));
      assert [s[0]] + s[1..] == s;
    }
  }

  // ---------------------------------------------------------------------
  // Building and reading hrefs
  // ---------------------------------------------------------------------

  datatype Param = Param(name: string, value: string)

  /** `name=value`, interpolated as is. */
  function Segment(p: Param): string {
    p.name + "=" + p.value
  }

  /** The pieces joined with `&`. */
  function JoinParams(ps: seq<Param>): string {
    if ps == [] then ""
    else if |ps| == 1 then Segment(ps[0])
    else Segment(ps[0]) + "&" + JoinParams(ps[1..])
  }

  /** `${path}?${name1}=${value1}&...`, a template-literal href. */
  function Href(path: string, ps: seq<Param>): string {
    path + "?" + JoinParams(ps)
  }

  /** The part of an href before the fragment. */
  function BeforeFragment(href: string): string {
    href[..Find(href, '#')]
  }

  /** The path of an href: everything before `?` and `#`. */
  function PathOf(href: string): string {
    var base := BeforeFragment(href);
    base[..Find(base, '?')]
  }

  /** The query string of an href: what follows the first `?`, up to `#`. */
  function QueryOf(href: string): string {
    var base := BeforeFragment(href);
    var k := Find(base, '?');
    if k < |base| then base[k + 1..] else ""
  }

  /** The decoded name of a query piece (before its first `=`). */
  function NameOf(piece: string): string {
    PercentDecode(piece[..Find(piece, '=')])
  }

  /** The decoded value of a query piece (after its first `=`, or empty). */
  function ValueOf(piece: string): string {
    var k := Find(piece, '=');
    if k < |piece| then PercentDecode(piece[k + 1..]) else ""
  }

  /** `searchParams.get(name)`: the first non-empty piece with that name. */
  function Lookup(pieces: seq<string>, name: string): Option<string> {
    if pieces == [] then None
    else if pieces[0] != "" && NameOf(pieces[0]) == name then Some(ValueOf(pieces[0]))
    else Lookup(pieces[1..], name)
  }

  /** Looking up in two runs of pieces: the first run wins. */
  lemma {:induction false} LookupAppend(a: seq<string>, b: seq<string>, name: string)
    ensures Lookup(a + b, name) == if Lookup(a, name).Some? then Lookup(a, name) else Lookup(b, name)
  {
    if a == [] {
      assert a + b == b;
    } else {
      assert (a + b)[1..] == a[1..] + b;
      LookupAppend(a[1..], b, name);
    }
  }

  function QueryParam(href: string, name: string): Option<string> {
    Lookup(Split(QueryOf(href), '&'), name)
  }

  // ---------------------------------------------------------------------
  // Reading back what was built
  // ---------------------------------------------------------------------

  /** A parameter name that needs no escaping. */
  predicate PlainName(n: string) {
    n != [] && '=' !in n && '&' !in n && '#' !in n && '%' !in n && '+' !in n
  }

  /** The parameters an href can carry so that each reads back unchanged. */
  predicate Readable(ps: seq<Param>) {
    && (forall i :: 0 <= i < |ps| ==> PlainName(ps[i].name))
    && (forall i :: 0 <= i < |ps| ==> '&' !in ps[i].value && '#' !in ps[i].value)
    && (forall i, j :: 0 <= i < j < |ps| ==> ps[i].name != ps[j].name)
  }

  lemma SegmentParts(p: Param)
    requires PlainName(p.name)
    ensures Segment(p) != ""
    ensures NameOf(Segment(p)) == p.name
    ensures ValueOf(Segment(p)) == PercentDecode(p.value)
  {
    var s := Segment(p);
    FindFirst(p.name, '=', p.value);
    assert s[..|p.name|] == p.name;
    assert s[|p.name| + 1..] == p.value;
    DecodePlain(p.name);
  }

  lemma {:induction false} NoHashInJoin(ps: seq<Param>)
    requires Readable(ps)
    ensures '#' !in JoinParams(ps)
  {
    if |ps| > 1 {
      assert Readable(ps[1..]);
      NoHashInJoin(ps[1..]);
    }
  }

  lemma {:induction false} SplitJoin(ps: seq<Param>)
    requires Readable(ps) && ps != []
    ensures |Split(JoinParams(ps), '&')| == |ps|
    ensures forall i :: 0 <= i < |ps| ==> Split(JoinParams(ps), '&')[i] == Segment(ps[i])
  {
    assert '&' !in Segment(ps[0]);
    if |ps| == 1 {
      SplitNoSeparator(Segment(ps[0]), '&');
    } else {
      assert Readable(ps[1..]);
      SplitJoin(ps[1..]);
      SplitAtFirst(Segment(ps[0]), '&', JoinParams(ps[1..]));
    }
  }

  /** The pieces of a readable parameter list followed by a raw `&tail`. */
  lemma {:induction false} SplitJoinTail(ps: seq<Param>, tail: string)
    requires Readable(ps)
    ensures Split(JoinParams(ps) + ['&'] + tail, '&') == Split(JoinParams(ps), '&') + Split(tail, '&')
  {
    if ps == [] {
      SplitAtFirst([], '&', tail);
    } else {
      var seg := Segment(ps[0]);
      assert '&' !in seg;
      SplitNoSeparator(seg, '&');
      if |ps| == 1 {
        SplitAtFirst(seg, '&', tail);
      } else {
        var rest := JoinParams(ps[1..]);
        assert Readable(ps[1..]);
        SplitJoinTail(ps[1..], tail);
        assert JoinParams(ps) == seg + ['&'] + rest;
        SplitPrefix(seg, rest, tail);
      }
    }
  }

  lemma SplitPrefix(seg: string, rest: string, tail: string)
    requires '&' !in seg
    requires Split(rest + ['&'] + tail, '&') == Split(rest, '&') + Split(tail, '&')
    ensures Split(seg + ['&'] + rest + ['&'] + tail, '&') == Split(seg + ['&'] + rest, '&') + Split(tail, '&')
  {
    var r := rest + ['&'] + tail;
    assert seg + ['&'] + rest + ['&'] + tail == seg + ['&'] + r;
    assert Split(seg + ['&'] + r, '&') == [seg] + Split(r, '&') by {
      SplitAtFirst(seg, '&', r);
    }
    assert Split(seg + ['&'] + rest, '&') == [seg] + Split(rest, '&') by {
      SplitAtFirst(seg, '&', rest);
    }
  }

  lemma {:induction false} LookupPieces(pieces: seq<string>, ps: seq<Param>, k: nat)
    requires Readable(ps) && k < |ps| && |pieces| == |ps|
    requires forall i :: 0 <= i < |ps| ==> pieces[i] == Segment(ps[i])
    ensures Lookup(pieces, ps[k].name) == Some(PercentDecode(ps[k].value))
  {
    SegmentParts(ps[0]);
    if k > 0 {
      assert Readable(ps[1..]);
      LookupPieces(pieces[1..], ps[1..], k - 1);
    }
  }

  lemma {:induction false} LookupMissing(pieces: seq<string>, ps: seq<Param>, name: string)
    requires Readable(ps) && |pieces| == |ps|
    requires forall i :: 0 <= i < |ps| ==> pieces[i] == Segment(ps[i])
    requires forall i :: 0 <= i < |ps| ==> ps[i].name != name
    ensures Lookup(pieces, name) == None
  {
    if ps != [] {
      SegmentParts(ps[0]);
      assert Readable(ps[1..]);
      LookupMissing(pieces[1..], ps[1..], name);
    }
  }

  lemma HrefParts(path: string, ps: seq<Param>)
    requires '?' !in path && '#' !in path && Readable(ps)
    ensures PathOf(Href(path, ps)) == path
    ensures QueryOf(Href(path, ps)) == JoinParams(ps)
  {
    var href := Href(path, ps);
    NoHashInJoin(ps);
    assert forall c :: c in href ==> c in path || c == '?' || c in JoinParams(ps);
    FindAbsent(href, '#');
    assert BeforeFragment(href) == href;
    FindFirst(path, '?', JoinParams(ps));
    assert href == path + ['?'] + JoinParams(ps);
  }

  /**
   * Every parameter of a readable href reads back as its decoded value,
   * and its path is the path it was built from.
   */
  lemma HrefRoundTrip(path: string, ps: seq<Param>, k: nat)
    requires '?' !in path && '#' !in path && Readable(ps) && k < |ps|
    ensures PathOf(Href(path, ps)) == path
    ensures QueryParam(Href(path, ps), ps[k].name) == Some(PercentDecode(ps[k].value))
  {
    HrefParts(path, ps);
    SplitJoin(ps);
    LookupPieces(Split(JoinParams(ps), '&'), ps, k);
  }

  /** An href with a single parameter reads back its path and that parameter. */
  lemma HrefSingle(path: string, name: string, value: string)
    requires '?' !in path && '#' !in path && PlainName(name) && '&' !in value && '#' !in value
    ensures PathOf(Href(path, [Param(name, value)])) == path
    ensures QueryParam(Href(path, [Param(name, value)]), name) == Some(PercentDecode(value))
  {
    HrefRoundTrip(path, [Param(name, value)], 0);
  }

  /** A name the href does not carry reads back as absent. */
  lemma HrefMissing(path: string, ps: seq<Param>, name: string)
    requires '?' !in path && '#' !in path && Readable(ps) && ps != []
    requires forall i :: 0 <= i < |ps| ==> ps[i].name != name
    ensures QueryParam(Href(path, ps), name) == None
  {
    HrefParts(path, ps);
    SplitJoin(ps);
    LookupMissing(Split(JoinParams(ps), '&'), ps, name);
  }

  /** The path and query string of a readable href with a raw `&tail` appended. */
  lemma HrefTailParts(path: string, ps: seq<Param>, tail: string)
    requires '?' !in path && '#' !in path && '#' !in tail && Readable(ps)
    ensures PathOf(Href(path, ps) + "&" + tail) == path
    ensures QueryOf(Href(path, ps) + "&" + tail) == JoinParams(ps) + ['&'] + tail
  {
    var rest := JoinParams(ps) + ['&'] + tail;
    var href := path + ['?'] + rest;
    assert href == Href(path, ps) + "&" + tail;
    NoHashInJoin(ps);
    assert '#' !in rest;
    assert '#' !in href;
    FindAbsent(href, '#');
    assert BeforeFragment(href) == href;
    FindFirst(path, '?', rest);
  }

  /**
   * A raw `&tail` appended to a readable href adds the tail's pieces after
   * the href's own: its parameters still read back, and a name it does not
   * carry is looked up in the tail alone.
   */
  lemma HrefWithTail(path: string, ps: seq<Param>, tail: string, name: string)
    requires '?' !in path && '#' !in path && '#' !in tail && Readable(ps)
    requires forall i :: 0 <= i < |ps| ==> ps[i].name != name
    ensures PathOf(Href(path, ps) + "&" + tail) == path
    ensures forall k :: 0 <= k < |ps| ==>
      QueryParam(Href(path, ps) + "&" + tail, ps[k].name) == Some(PercentDecode(ps[k].value))
    ensures QueryParam(Href(path, ps) + "&" + tail, name) == Lookup(Split(tail, '&'), name)
  {
    HrefTailParts(path, ps, tail);
    SplitJoinTail(ps, tail);
    var pieces := Split(JoinParams(ps), '&');
    var all := pieces + Split(tail, '&');
    assert forall n :: QueryParam(Href(path, ps) + "&" + tail, n) == Lookup(all, n);
    if ps != [] {
      SplitJoin(ps);
      forall k | 0 <= k < |ps|
        ensures Lookup(all, ps[k].name) == Some(PercentDecode(ps[k].value))
      {
        LookupPieces(pieces, ps, k);
        LookupAppend(pieces, Split(tail, '&'), ps[k].name);
      }
      LookupMissing(pieces, ps, name);
    } else {
      assert pieces == [""];
    }
    LookupAppend(pieces, Split(tail, '&'), name);
  }
}
