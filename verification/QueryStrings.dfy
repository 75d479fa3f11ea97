/** The query string of a tool call, read back on the server's side. */
module QueryStrings {
  import opened Basics
  import opened UriEncoding
  import opened PathParams

  /** The text before the first c and what follows it, if there is a c. */
  function Cut(c: char, text: string): (r: (string, Option<string>))
    ensures r.1.Some? ==> |r.1.value| < |text|
  {
    var i := IndexOf(c, text);
    if i < 0 then (text, None) else (text[..i], Some(text[i + 1..]))
  }

  /** One `name=value` of a query; the value may be left out. */
  function ReadPair(text: string): Option<(string, string)> {
    var (name, value) := Cut('=', text);
    match (Decode(name), Decode(if value.Some? then value.value else ""))
    case (Some(n), Some(v)) => Some((n, v))
    case _ => None
  }

  function ReadPairs(text: string): Option<seq<(string, string)>>
    decreases |text|
  {
    var (first, rest) := Cut('&', text);
    match (ReadPair(first), if rest.Some? then ReadPairs(rest.value) else Some([]))
    case (Some(p), Some(ps)) => Some([p] + ps)
    case _ => None
  }

  /** The query of a request target, in the order of its pairs; None where an escape is malformed. */
  function ReadQuery(url: string): Option<seq<(string, string)>> {
    var query := Cut('?', url).1;
    if query == None then Some([]) else ReadPairs(query.value)
  }

  lemma CutAt(c: char, before: string, after: string)
    requires c !in before
    ensures Cut(c, before) == (before, None) && Cut(c, before + [c] + after) == (before, Some(after))
  {
    var text := before + [c] + after;
    assert forall i | 0 <= i < |before| :: text[i] == before[i] && before[i] in before;
    assert text[|before|] == c;
    assert text[..|before|] == before && text[|before| + 1..] == after;
  }

  lemma ReservedMarks()
    ensures !EncodedChar('&') && !EncodedChar('=') && !EncodedChar('?')
  {
  }

  lemma PairArrives(p: (string, string))
    ensures ReadPair(Encode(p.0) + "=" + Encode(p.1)) == Some(p)
    ensures '&' !in Encode(p.0) + "=" + Encode(p.1)
  {
    hide Encode, Decode, EncodedChar, Cut;
    ReservedMarks();
    EncodedChars(p.0);
    EncodedChars(p.1);
    CutAt('=', Encode(p.0), Encode(p.1));
    DecodeEncoded(p.0);
    DecodeEncoded(p.1);
  }

  lemma {:induction false} PairsArrive(query: seq<(string, string)>)
    requires query != []
    ensures ReadPairs(Pairs(query)) == Some(query)
  {
    hide Encode, Decode, EncodedChar, Cut, ReadPair;
    var first := Encode(query[0].0) + "=" + Encode(query[0].1);
    PairArrives(query[0]);
    if |query| == 1 {
      assert Pairs(query) == first;
      CutAt('&', first, "");
      assert query == [query[0]] + [];
    } else {
      PairsArrive(query[1..]);
      CutAt('&', first, Pairs(query[1..]));
      assert Pairs(query) == first + "&" + Pairs(query[1..]);
      assert query == [query[0]] + query[1..];
    }
  }

  /** Behind any path without a question mark, the query that was sent is read back, pair by pair. */
  lemma QueryReadBack(path: string, query: seq<(string, string)>)
    requires '?' !in path
    ensures ReadQuery(path + QueryText(query)) == Some(query)
    ensures QueryText(query) == "" <==> query == []
  {
    hide Cut, ReadPairs, Pairs;
    if query == [] {
      CutAt('?', path, "");
      assert path + QueryText(query) == path;
    } else {
      PairsArrive(query);
      CutAt('?', path, Pairs(query));
      assert path + QueryText(query) == path + "?" + Pairs(query);
    }
  }

  /** The server reads the query of a tool call as it was given, whatever the path parameters are. */
  lemma {:induction false} QueryArrives(route: seq<Segment>, params: Params, query: seq<(string, string)>)
    requires Plain(route) && route != [] && Covers(route, params)
    ensures
      var sent := Invoke(Template(route), Some(params), query);
      sent.Url? && ReadQuery(sent.text) == Some(query)
  {
    hide Invoke, Template, Rooted, Pieces, PathChar, QueryText, ReadQuery, Plain, Covers;
    SentPath(route, params, query);
    RootedChars(route, params);
    PathCharsPlain();
    QueryReadBack(Rooted(Pieces(route, params)), query);
  }
}
