/** SSM document ARNs: `arn:aws:ssm:<region>:<account>:document/<name>`.
    `Match` is the anchored regular-expression match of filter_ssm_documents.py
    (`re.match` anchors at the start only), `ParseArn` projects it to (region, name). */
module Arn {
  import opened Wrappers

  const Prefix: string := "arn:aws:ssm:"
  const DocumentPath: string := "document/"

  /** The groups of a successful match, plus the text after the match. */
  datatype ArnMatch = ArnMatch(region: string, account: string, name: string, rest: string)

  /** What `parse_arn` returns on success. */
  datatype ArnParts = ArnParts(region: string, name: string)

  /** A `[^:]+` group: non-empty and colon-free (it may hold any other character,
      newlines included). */
  predicate Segment(x: string) {
    |x| > 0 && ':' !in x
  }

  /** The shape of a match: two `[^:]+` groups, a `.*` group (which stops at the
      first newline), and a remainder that the match did not consume. */
  predicate WellFormed(m: ArnMatch) {
    && Segment(m.region)
    && Segment(m.account)
    && '\n' !in m.name
    && (m.rest == [] || m.rest[0] == '\n')
  }

  /** The string a match was read from: `arn:aws:ssm:R:A:document/N` and the rest. */
  function Render(m: ArnMatch): string {
    Prefix + (m.region + [':'] + (m.account + [':'] + (DocumentPath + (m.name + m.rest))))
  }

  /** `s` without the prefix `p`, if `s` starts with `p`. */
  function DropPrefix(p: string, s: string): (r: Option<string>)
    ensures r.Some? <==> |p| <= |s| && s[..|p|] == p
    ensures r.Some? ==> s == p + r.value
  {
    if |p| <= |s| && s[..|p|] == p then Some(s[|p|..]) else None
  }

  lemma {:induction false} DropPrefixOf(p: string, x: string)
    ensures DropPrefix(p, p + x) == Some(x)
  {
    assert (p + x)[..|p|] == p;
  }

  /** `s` cut at its first `c`: the text before it and the text after it. */
  function CutAt(s: string, c: char): (r: Option<(string, string)>)
    ensures r.Some? ==> s == r.value.0 + [c] + r.value.1 && c !in r.value.0
    ensures r.None? ==> c !in s
  {
    if |s| == 0 then None
    else if s[0] == c then
      assert s == [] + [c] + s[1..];
      Some(([], s[1..]))
    else match CutAt(s[1..], c)
      case None => None
      case Some(p) =>
        assert s == ([s[0]] + p.0) + [c] + p.1;
        Some(([s[0]] + p.0, p.1))
  }

  lemma {:induction false} CutAtFirst(x: string, y: string, c: char)
    requires c !in x
    ensures CutAt(x + [c] + y, c) == Some((x, y))
    decreases |x|
  {
    var s := x + [c] + y;
    if x == [] {
      assert s[1..] == y;
    } else {
      assert s[1..] == x[1..] + [c] + y;
      CutAtFirst(x[1..], y, c);
      assert [x[0]] + x[1..] == x;
    }
  }

  /** What `.*` consumes: the longest prefix of `s` without a newline. */
  function TakeLine(s: string): (r: string)
    ensures |r| <= |s| && r == s[..|r|]
    ensures '\n' !in r
    ensures |r| == |s| || s[|r|] == '\n'
  {
    match CutAt(s, '\n')
    case None => s
    case Some(p) =>
      assert s[..|p.0|] == p.0;
      p.0
  }

  lemma {:induction false} TakeLineStops(x: string, y: string)
    requires '\n' !in x && (y == [] || y[0] == '\n')
    ensures TakeLine(x + y) == x
  {
    var r := TakeLine(x + y);
    assert r == (x + y)[..|r|];
    assert (x + y)[..|x|] == x;
  }

  /** `ARN_REGEX.match(s)`: None when the pattern matches no prefix of `s`. */
  function Match(s: string): (r: Option<ArnMatch>)
    ensures r.Some? ==> WellFormed(r.value) && Render(r.value) == s
  {
    match DropPrefix(Prefix, s)
    case None => None
    case Some(t) =>
      match CutAt(t, ':')
      case None => None
      case Some((region, u)) =>
        if region == [] then None
        else match CutAt(u, ':')
          case None => None
          case Some((account, v)) =>
            if account == [] then None
            else match DropPrefix(DocumentPath, v)
              case None => None
              case Some(w) =>
                var name := TakeLine(w);
                assert w == name + w[|name|..];
                Some(ArnMatch(region, account, name, w[|name|..]))
  }

  /** Every well-formed decomposition is found by `Match`; with the ensures of
      `Match` this makes `Match` exactly the decomposition of its input. */
  lemma {:induction false} MatchComplete(m: ArnMatch)
    requires WellFormed(m)
    ensures Match(Render(m)) == Some(m)
  {
    var w := m.name + m.rest;
    var v := DocumentPath + w;
    var u := m.account + [':'] + v;
    var t := m.region + [':'] + u;
    DropPrefixOf(Prefix, t);
    CutAtFirst(m.region, u, ':');
    CutAtFirst(m.account, v, ':');
    DropPrefixOf(DocumentPath, w);
    TakeLineStops(m.name, m.rest);
    assert w[|m.name|..] == m.rest;
  }

  /** `parse_arn(s)`: the region and name groups, or None for `(None, None)`. */
  function ParseArn(s: string): (r: Option<ArnParts>)
    ensures r.Some? ==> Segment(r.value.region) && '\n' !in r.value.name
  {
    match Match(s)
    case None => None
    case Some(m) => Some(ArnParts(m.region, m.name))
  }

  /** Any `arn:aws:ssm:R:A:document/N` with colon-free non-empty R and A parses to
      (R, N); N is everything after the first `:document/`, `/` characters included. */
  lemma {:induction false} ParseSsmArn(region: string, account: string, name: string)
    requires Segment(region) && Segment(account) && '\n' !in name
    ensures ParseArn(Prefix + region + ":" + account + ":" + DocumentPath + name)
            == Some(ArnParts(region, name))
  {
    var m := ArnMatch(region, account, name, []);
    MatchComplete(m);
    assert Render(m) == Prefix + region + ":" + account + ":" + DocumentPath + name;
  }

  /** `parse_arn` gives up exactly on the strings that are not a well-formed SSM
      document ARN (possibly followed by a newline and more text). */
  lemma {:induction false} ParseArnFailsExactly(s: string)
    ensures ParseArn(s).None? <==> forall m :: WellFormed(m) ==> Render(m) != s
  {
    if ParseArn(s).None? {
      forall m | WellFormed(m) ensures Render(m) != s {
        MatchComplete(m);
      }
    }
  }

  /** A Lambda function ARN is not an SSM document ARN. */
  lemma LambdaArnRejected()
    ensures ParseArn("arn:aws:lambda:us-east-1:123456789012:function:f").None?
  {
    var s := "arn:aws:lambda:us-east-1:123456789012:function:f";
    assert s[8] == 'l' && Prefix[8] == 's';
    assert s[..|Prefix|] != Prefix by { assert s[..|Prefix|][8] == s[8]; }
  }

  /** An SSM ARN naming something other than a document (a parameter, an
      automation definition, ...) is rejected: after the account the pattern
      insists on `:document/`. */
  lemma {:induction false} OtherResourceRejected(region: string, account: string, resource: string)
    requires Segment(region) && Segment(account)
    requires |resource| < |DocumentPath| || resource[..|DocumentPath|] != DocumentPath
    ensures ParseArn(Prefix + region + ":" + account + ":" + resource).None?
  {
    var u := account + [':'] + resource;
    var t := region + [':'] + u;
    DropPrefixOf(Prefix, t);
    assert Prefix + t == Prefix + region + ":" + account + ":" + resource;
    CutAtFirst(region, u, ':');
    CutAtFirst(account, resource, ':');
  }

  /** A matching ARN with nothing after `document/` parses with an empty name. */
  lemma {:induction false} EmptyNameParses(region: string, account: string)
    requires Segment(region) && Segment(account)
    ensures ParseArn(Prefix + region + ":" + account + ":" + DocumentPath)
            == Some(ArnParts(region, ""))
  {
    ParseSsmArn(region, account, "");
    assert Prefix + region + ":" + account + ":" + DocumentPath + ""
        == Prefix + region + ":" + account + ":" + DocumentPath;
  }
}
