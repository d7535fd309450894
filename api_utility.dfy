/**
 * `apiUtility.ValidateURL`: the guards an HTTP handler runs before it
 * answers. The path is cleaned, then its length is checked, then the query
 * must hold exactly the endpoint's parameters, each with a non-empty first
 * value. `path.Clean` is a parameter of the model. Lengths are Go's `len`:
 * bytes of the UTF-8 encoding, not characters.
 */
module ApiUtility {
  import opened Wrappers
  import opened Strings

  const ErrorTongURL: string := "requested URL is too long"
  const ErrorInvalidQueryParams: string := "invalid query parameter: Endpoint only supports the given parameters"

  /** A URL query: each key with the values given for it, in order. */
  type Query = map<string, seq<string>>

  /** The one error text for every query that does not fit the parameters. */
  function InvalidParams(params: seq<string>): string
  {
    ErrorInvalidQueryParams + Join(params, ", ")
  }

  /** A parameter is supplied when the query has it with a first value that is not empty. */
  predicate Supplied(query: Query, p: string)
  {
    p in query && |query[p]| > 0 && query[p][0] != ""
  }

  /**
   * The answer for a cleaned path: too long (in bytes) first; with no parameters
   * (`params == nil`) any query; otherwise the query must have as many keys
   * as there are parameters and supply each of them.
   */
  function Verdict(cleaned: string, query: Query, maxLength: int, params: Option<seq<string>>): Option<string>
  {
    if ByteLength(cleaned) > maxLength then Some(ErrorTongURL)
    else match params
      case None => None
      case Some(ps) =>
        if |query| == |ps| && forall i :: 0 <= i < |ps| ==> Supplied(query, ps[i]) then None
        else Some(InvalidParams(ps))
  }

  /** `ValidateURL(url, query, maxLength, params)`, with `clean` standing for `path.Clean`. */
  method ValidateURL(url: string, query: Query, maxLength: int, params: Option<seq<string>>, clean: string -> string)
    returns (err: Option<string>)
    ensures err == Verdict(clean(url), query, maxLength, params)
  {
    var cleaned := clean(url);
    if ByteLength(cleaned) > maxLength {
      return Some(ErrorTongURL);
    }
    if params.None? {
      return None;
    }
    var ps := params.value;
    if |query| != |ps| {
      return Some(InvalidParams(ps));
    }
    for i := 0 to |ps|
      invariant forall j :: 0 <= j < i ==> Supplied(query, ps[j])
    {
      var p := ps[i];
      if !(p in query && |query[p]| > 0 && query[p][0] != "") {
        return Some(InvalidParams(ps));
      }
    }
    err := None;
  }

  /** The length is judged on the cleaned path: two paths that clean alike get the same answer. */
  lemma SameCleanSameVerdict(u1: string, u2: string, query: Query, maxLength: int, params: Option<seq<string>>,
                             clean: string -> string)
    requires clean(u1) == clean(u2)
    ensures Verdict(clean(u1), query, maxLength, params) == Verdict(clean(u2), query, maxLength, params)
  {
  }

  /** A path whose bytes exceed the limit is refused as too long whatever the query. */
  lemma TooLongFirst(cleaned: string, query: Query, maxLength: int, params: Option<seq<string>>)
    requires ByteLength(cleaned) > maxLength
    ensures Verdict(cleaned, query, maxLength, params) == Some(ErrorTongURL)
  {
  }

  /** Without parameters, every query passes once the byte length does. */
  lemma NoParamsAnyQuery(cleaned: string, query: Query, maxLength: int)
    ensures Verdict(cleaned, query, maxLength, None) == None <==> ByteLength(cleaned) <= maxLength
  {
  }

  /**
   * With distinct parameters, a query passes exactly when its keys are the
   * parameters and each has a first value that is not empty.
   */
  lemma PassesExactly(cleaned: string, query: Query, maxLength: int, ps: seq<string>)
    requires ByteLength(cleaned) <= maxLength
    requires forall i, j :: 0 <= i < j < |ps| ==> ps[i] != ps[j]
    ensures Verdict(cleaned, query, maxLength, Some(ps)) == None <==>
      && query.Keys == (set i | 0 <= i < |ps| :: ps[i])
      && forall p :: p in query ==> |query[p]| > 0 && query[p][0] != ""
    ensures Verdict(cleaned, query, maxLength, Some(ps)) != None ==>
      Verdict(cleaned, query, maxLength, Some(ps)) == Some(InvalidParams(ps))
  {
    var named := set i | 0 <= i < |ps| :: ps[i];
    DistinctCount(ps);
    if Verdict(cleaned, query, maxLength, Some(ps)) == None {
      assert named <= query.Keys by {
        forall p | p in named ensures p in query.Keys {
          var i :| 0 <= i < |ps| && ps[i] == p;
          assert Supplied(query, ps[i]);
        }
      }
      SubsetSameSize(named, query.Keys);
      forall p | p in query ensures |query[p]| > 0 && query[p][0] != "" {
        assert p in named;
        var i :| 0 <= i < |ps| && ps[i] == p;
        assert Supplied(query, ps[i]);
      }
    } else if query.Keys == named && forall p :: p in query ==> |query[p]| > 0 && query[p][0] != "" {
      assert |query| == |query.Keys|;
      forall i | 0 <= i < |ps| ensures Supplied(query, ps[i]) {
        assert ps[i] in named;
      }
    }
  }

  /** For an ASCII path the limit counts characters; beyond ASCII a character takes up to four bytes. */
  lemma AsciiLength(cleaned: string, query: Query, maxLength: int, params: Option<seq<string>>)
    requires forall k :: 0 <= k < |cleaned| ==> cleaned[k] as int < 0x80
    ensures Verdict(cleaned, query, maxLength, params) == Some(ErrorTongURL) <==> |cleaned| > maxLength
  {
    ByteLengthAscii(cleaned);
    if |cleaned| <= maxLength && params.Some? {
      assert |ErrorTongURL| != |InvalidParams(params.value)|;
    }
  }

  /**
   * A path one character within the limit can still be too long: "/aircraft/hist", an o-umlaut
   * and "ry" make 17 characters and 18 bytes, over a limit of 17.
   */
  lemma MultiByteTooLong(query: Query, params: Option<seq<string>>)
    ensures var path := "/aircraft/hist" + "\U{00F6}" + "ry";
      |path| == 17 && ByteLength(path) == 18 && Verdict(path, query, 17, params) == Some(ErrorTongURL)
  {
    var a, o, b := "/aircraft/hist", "\U{00F6}", "ry";
    ByteLengthAscii(a);
    ByteLengthAscii(b);
    ByteLengthConcat(a, o);
    ByteLengthConcat(a + o, b);
    assert ByteLength(o) == ByteLength([]) + Utf8Width(o[0]);
  }

  lemma {:induction false} DistinctCount(ps: seq<string>)
    requires forall i, j :: 0 <= i < j < |ps| ==> ps[i] != ps[j]
    ensures |set i | 0 <= i < |ps| :: ps[i]| == |ps|
  {
    if ps != [] {
      var rest := ps[..|ps| - 1];
      DistinctCount(rest);
      var last := ps[|ps| - 1];
      assert (set i | 0 <= i < |ps| :: ps[i]) == (set i | 0 <= i < |rest| :: rest[i]) + {last};
      assert last !in (set i | 0 <= i < |rest| :: rest[i]);
    }
  }

  lemma {:induction false} SubsetSameSize(a: set<string>, b: set<string>)
    requires a <= b && |a| == |b|
    ensures a == b
    decreases b
  {
    if b != {} {
      var x :| x in b;
      if x in a {
        assert |a - {x}| == |a| - 1 && |b - {x}| == |b| - 1;
        SubsetSameSize(a - {x}, b - {x});
        assert a == (a - {x}) + {x} && b == (b - {x}) + {x};
      } else {
        SubsetSmaller(a, b - {x});
      }
    }
  }

  lemma {:induction false} SubsetSmaller(a: set<string>, b: set<string>)
    requires a <= b
    ensures |a| <= |b|
    decreases b
  {
    if b != {} {
      var x :| x in b;
      SubsetSmaller(a - {x}, b - {x});
    }
  }

  /** Only the first value of each parameter is read: other values may be changed freely. */
  lemma FirstValueOnly(cleaned: string, q1: Query, q2: Query, maxLength: int, params: Option<seq<string>>)
    requires q1.Keys == q2.Keys
    requires forall p :: p in q1 ==> (|q1[p]| > 0 <==> |q2[p]| > 0)
    requires forall p :: p in q1 && |q1[p]| > 0 ==> q1[p][0] == q2[p][0]
    ensures Verdict(cleaned, q1, maxLength, params) == Verdict(cleaned, q2, maxLength, params)
  {
    assert |q1| == |q1.Keys| == |q2.Keys| == |q2|;
    assert forall p :: Supplied(q1, p) <==> Supplied(q2, p);
  }
}
