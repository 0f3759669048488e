/** Splitting a request target into its path and its query parameters: the path ends at the
    first '?', the query is cut at every '&', and each piece at its first '='. There is no
    fragment handling and no percent-decoding; names and values are pieces of the target as
    they stand. */
module UriParsing {
  import opened Wrappers
  import opened Text

  /** One query parameter (`uri_param`). */
  datatype UriParam = UriParam(name: string, value: string)

  /** The result of `parse_uri`: the path, the query string after '?', and its parameters. */
  datatype ParsedUri = ParsedUri(path: string, paramsString: string, params: seq<UriParam>)

  /** `parse_one_param`: a piece splits at its first '='. With '=' the name is the text before
      the first '=' and the value the rest, so that name, '=' and value make up the piece
      again; without '=' the whole piece is the name and the value is empty. */
  function ParseOneParam(piece: string): (r: UriParam)
    ensures '=' in piece ==> r.name + "=" + r.value == piece && '=' !in r.name
    ensures '=' !in piece ==> r == UriParam(piece, [])
  {
    match FindChar(piece, '=')
    case None => UriParam(piece, [])
    case Some(i) =>
      assert piece == piece[..i] + "=" + piece[i + 1..];
      UriParam(piece[..i], piece[i + 1..])
  }

  /** The pieces of `s` between the occurrences of `sep`, in order. */
  function Split(s: string, sep: char): (r: seq<string>)
    ensures |r| >= 1
    decreases |s|
  {
    match FindChar(s, sep)
    case None => [s]
    case Some(i) => [s[..i]] + Split(s[i + 1..], sep)
  }

  /** The inverse of `Split`: the pieces with `sep` between them. */
  function Join(pieces: seq<string>, sep: char): string
    requires |pieces| >= 1
  {
    if |pieces| == 1 then pieces[0] else pieces[0] + [sep] + Join(pieces[1..], sep)
  }

  /** A parameter as `parse_uri` keeps it: only when its name is non-empty. */
  function Keep(p: UriParam): (r: seq<UriParam>)
    ensures r == [] || r == [p]
  {
    if p.name == [] then [] else [p]
  }

  /** The parameters of a list of pieces: each piece parsed, those with an empty name dropped. */
  function ParamsOf(pieces: seq<string>): seq<UriParam> {
    if pieces == [] then [] else Keep(ParseOneParam(pieces[0])) + ParamsOf(pieces[1..])
  }

  /** The parameters of a query string. */
  function Params(query: string): seq<UriParam> {
    ParamsOf(Split(query, '&'))
  }

  /** What `parse_uri` returns for a target. */
  function UriParts(uri: string): (r: ParsedUri)
    ensures '?' !in uri ==> r == ParsedUri(uri, [], [])
    ensures '?' in uri ==> r.path + "?" + r.paramsString == uri && '?' !in r.path
    ensures '?' in uri ==> r.params == Params(r.paramsString)
  {
    match FindChar(uri, '?')
    case None => ParsedUri(uri, [], [])
    case Some(q) =>
      assert uri == uri[..q] + "?" + uri[q + 1..];
      ParsedUri(uri[..q], uri[q + 1..], Params(uri[q + 1..]))
  }

  /** `parse_uri`: finds the '?', then collects the parameters of what follows it. */
  method ParseUri(uri: string) returns (r: ParsedUri)
    ensures r == UriParts(uri)
  {
    var idx := FindChar(uri, '?');
    if idx.None? {
      return ParsedUri(uri, [], []);
    }
    var params := CollectParams(uri, idx.value);
    return ParsedUri(uri[..idx.value], uri[idx.value + 1..], params);
  }

  /** The loop of `parse_uri`: walks the '&' separators left to right, each search starting
      just after the previous separator, and keeps the pieces with a non-empty name. */
  method CollectParams(uri: string, q: nat) returns (params: seq<UriParam>)
    requires q < |uri|
    ensures params == Params(uri[q + 1..])
  {
    var start: Option<nat> := Some(q);
    params := [];
    while start.Some?
      invariant start.Some? ==> start.value < |uri| && CollectFrom(uri, start.value, params) == CollectFrom(uri, q, [])
      invariant start.None? ==> params == CollectFrom(uri, q, [])
      decreases if start.Some? then |uri| + 1 - start.value else 0
    {
      var from := start.value + 1;
      var next := FindCharFrom(uri, '&', from);
      var paramStr := if next.None? then uri[from..] else uri[from..next.value];
      var param := ParseOneParam(paramStr);
      ghost var kept := params + Keep(param);
      if param.name != [] {
        params := params + [param];
      }
      assert params == kept;
      start := next;
    }
    CollectFromParams(uri, q, []);
    assert [] + Params(uri[q + 1..]) == Params(uri[q + 1..]);
  }

  /** The loop of `parse_uri` as a function: the parameters collected so far, `acc`,
      followed by those of the pieces after the separator at `start`. */
  function CollectFrom(uri: string, start: nat, acc: seq<UriParam>): seq<UriParam>
    requires start < |uri|
    decreases |uri| - start
  {
    var next := FindCharFrom(uri, '&', start + 1);
    var param := ParseOneParam(if next.None? then uri[start + 1..] else uri[start + 1..next.value]);
    if next.None? then acc + Keep(param) else CollectFrom(uri, next.value, acc + Keep(param))
  }

  /** The loop collects the parameters of the query after the separator it starts at. */
  lemma {:induction false} CollectFromParams(uri: string, start: nat, acc: seq<UriParam>)
    requires start < |uri|
    ensures CollectFrom(uri, start, acc) == acc + Params(uri[start + 1..])
    decreases |uri| - start
  {
    var next := FindCharFrom(uri, '&', start + 1);
    if next.None? {
      LastPiece(uri, start, acc);
    } else {
      var n := next.value;
      var kept := Keep(ParseOneParam(uri[start + 1..n]));
      CollectFromStep(uri, start, acc, n);
      CollectFromParams(uri, n, acc + kept);
      ParamsAtSeparator(uri, start, n);
      Reassociate(acc, kept, Params(uri[n + 1..]));
    }
  }

  /** One turn of the loop when another separator follows. */
  lemma {:induction false} CollectFromStep(uri: string, start: nat, acc: seq<UriParam>, n: nat)
    requires start < |uri| && FindCharFrom(uri, '&', start + 1) == Some(n)
    ensures CollectFrom(uri, start, acc) == CollectFrom(uri, n, acc + Keep(ParseOneParam(uri[start + 1..n])))
  {
  }

  /** The last turn of the loop, when no separator follows. */
  lemma {:induction false} LastPiece(uri: string, start: nat, acc: seq<UriParam>)
    requires start < |uri| && FindCharFrom(uri, '&', start + 1) == None
    ensures CollectFrom(uri, start, acc) == acc + Params(uri[start + 1..])
  {
    var t := uri[start + 1..];
    assert FindChar(t, '&') == None;
    SplitNone(t, '&');
    ParamsOfCons(t, []);
    assert [t] + [] == [t];
  }

  /** The parameters after the separator at `start` are those of the piece up to the next
      separator `n`, followed by those after `n`. */
  lemma {:induction false} ParamsAtSeparator(uri: string, start: nat, n: nat)
    requires start < |uri| && FindCharFrom(uri, '&', start + 1) == Some(n)
    ensures Params(uri[start + 1..]) == Keep(ParseOneParam(uri[start + 1..n])) + Params(uri[n + 1..])
  {
    var from := start + 1;
    var t, i := uri[from..], n - from;
    assert FindChar(t, '&') == Some(i) by {
      assert FindCharFrom(uri, '&', from) == Some(n);
    }
    assert t[..i] == uri[from..n] && t[i + 1..] == uri[n + 1..] by {
      SliceOfSlice(uri, from, |uri|, 0, i);
      SliceOfSlice(uri, from, |uri|, i + 1, |t|);
    }
    ParamsAtFirst(t, i);
  }

  /** The parameters of a query string are those of its first piece, then those after the
      first '&'. */
  lemma {:induction false} ParamsAtFirst(t: string, i: nat)
    requires FindChar(t, '&') == Some(i)
    ensures Params(t) == Keep(ParseOneParam(t[..i])) + Params(t[i + 1..])
  {
    SplitAt(t, '&', i);
    ParamsOfCons(t[..i], Split(t[i + 1..], '&'));
  }

  lemma {:induction false} ParamsOfCons(x: string, rest: seq<string>)
    ensures ParamsOf([x] + rest) == Keep(ParseOneParam(x)) + ParamsOf(rest)
  {
    assert ([x] + rest)[1..] == rest;
  }

  lemma {:induction false} Reassociate(a: seq<UriParam>, b: seq<UriParam>, c: seq<UriParam>)
    ensures a + b + c == a + (b + c)
  {
  }

  // ---------------------------------------------------------------------------------------
  // Properties of the splitting

  /** Splitting where the separator occurs first: the piece before it, then the split of the
      rest. */
  lemma {:induction false} SplitAt(s: string, sep: char, i: nat)
    requires FindChar(s, sep) == Some(i)
    ensures Split(s, sep) == [s[..i]] + Split(s[i + 1..], sep)
  {
  }

  lemma {:induction false} SplitNone(s: string, sep: char)
    requires FindChar(s, sep) == None
    ensures Split(s, sep) == [s]
  {
  }

  lemma {:induction false} JoinCons(x: string, rest: seq<string>, sep: char)
    requires |rest| >= 1
    ensures Join([x] + rest, sep) == x + [sep] + Join(rest, sep)
  {
    assert ([x] + rest)[1..] == rest;
  }

  /** Splitting and joining again gives back the query string: every piece, and so every
      name and value, is a verbatim slice of it. */
  lemma {:induction false} JoinSplit(s: string, sep: char)
    ensures Join(Split(s, sep), sep) == s
    decreases |s|
  {
    match FindChar(s, sep)
    case None =>
      SplitNone(s, sep);
    case Some(i) =>
      var head, tail := s[..i], s[i + 1..];
      SplitAt(s, sep, i);
      JoinSplit(tail, sep);
      JoinCons(head, Split(tail, sep), sep);
      assert s == head + [sep] + tail;
  }

  /** No piece contains the separator. */
  lemma {:induction false} SplitPiecesFree(s: string, sep: char)
    ensures forall k :: 0 <= k < |Split(s, sep)| ==> sep !in Split(s, sep)[k]
    decreases |s|
  {
    match FindChar(s, sep)
    case None =>
    case Some(i) =>
      SplitPiecesFree(s[i + 1..], sep);
  }

  /** There is one piece more than there are separators. */
  lemma {:induction false} SplitCount(s: string, sep: char)
    ensures |Split(s, sep)| == Count(s, sep) + 1
    decreases |s|
  {
    match FindChar(s, sep)
    case None =>
      CountAbsent(s, sep);
    case Some(i) =>
      SplitCount(s[i + 1..], sep);
      assert s == s[..i] + [sep] + s[i + 1..];
      CountAppend(s[..i] + [sep], s[i + 1..], sep);
      CountAppend(s[..i], [sep], sep);
      CountAbsent(s[..i], sep);
  }

  lemma {:induction false} CountAbsent(s: string, c: char)
    requires c !in s
    ensures Count(s, c) == 0
  {
    if s != [] {
      assert c !in s[1..];
      CountAbsent(s[1..], c);
    }
  }

  /** Every returned parameter has a non-empty name, and there are at most as many as there
      are '&' in the query string plus one. */
  lemma {:induction false} ParamsBound(query: string)
    ensures forall k :: 0 <= k < |Params(query)| ==> Params(query)[k].name != []
    ensures |Params(query)| <= Count(query, '&') + 1
  {
    SplitCount(query, '&');
    ParamsOfBound(Split(query, '&'));
  }

  lemma {:induction false} ParamsOfBound(pieces: seq<string>)
    ensures |ParamsOf(pieces)| <= |pieces|
    ensures forall k :: 0 <= k < |ParamsOf(pieces)| ==> ParamsOf(pieces)[k].name != []
  {
    if pieces != [] {
      ParamsOfBound(pieces[1..]);
    }
  }

  /** Parameters keep the order of their pieces: parsing a list of pieces is parsing each
      part of it. */
  lemma {:induction false} ParamsOfAppend(xs: seq<string>, ys: seq<string>)
    ensures ParamsOf(xs + ys) == ParamsOf(xs) + ParamsOf(ys)
  {
    if xs == [] {
      assert xs + ys == ys;
    } else {
      assert (xs + ys)[1..] == xs[1..] + ys;
      ParamsOfAppend(xs[1..], ys);
    }
  }

  /** Splitting at a separator splits the pieces there. */
  lemma {:induction false} SplitAppend(a: string, b: string, sep: char)
    ensures Split(a + [sep] + b, sep) == Split(a, sep) + Split(b, sep)
    decreases |a|
  {
    var s := a + [sep] + b;
    match FindChar(a, sep)
    case None =>
      assert s[..|a|] == a;
      FindCharAt(s, sep, |a|);
      SplitAt(s, sep, |a|);
      SplitNone(a, sep);
      assert s[|a| + 1..] == b;
    case Some(i) =>
      assert s[..i] == a[..i];
      FindCharAt(s, sep, i);
      SplitAt(s, sep, i);
      SplitAt(a, sep, i);
      assert s[i + 1..] == a[i + 1..] + [sep] + b;
      SplitAppend(a[i + 1..], b, sep);
      Append3([a[..i]], Split(a[i + 1..], sep), Split(b, sep));
  }

  lemma {:induction false} Append3(x: seq<string>, y: seq<string>, z: seq<string>)
    ensures x + (y + z) == x + y + z
  {
  }

  /** The parameters of `a&b` are those of `a` followed by those of `b`. */
  lemma {:induction false} QueryConcat(a: string, b: string)
    ensures Params(a + "&" + b) == Params(a) + Params(b)
  {
    SplitAppend(a, b, '&');
    ParamsOfAppend(Split(a, '&'), Split(b, '&'));
  }

  /** Every returned parameter is the parse of one piece of the query string. */
  lemma {:induction false} ParamsFromPieces(pieces: seq<string>, k: nat)
    requires k < |ParamsOf(pieces)|
    ensures exists j :: 0 <= j < |pieces| && ParseOneParam(pieces[j]) == ParamsOf(pieces)[k]
  {
    var p := ParseOneParam(pieces[0]);
    var head := if p.name == [] then [] else [p];
    if k < |head| {
      assert ParseOneParam(pieces[0]) == ParamsOf(pieces)[k];
    } else {
      ParamsFromPieces(pieces[1..], k - |head|);
      var j :| 0 <= j < |pieces[1..]| && ParseOneParam(pieces[1..][j]) == ParamsOf(pieces[1..])[k - |head|];
      assert ParseOneParam(pieces[j + 1]) == ParamsOf(pieces)[k];
    }
  }
}
