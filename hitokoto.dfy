/**
 * Fetching a quote from the hitokoto service (`getHitokoto` in main.go):
 * the query is built as a Go `url.Values`, one `c` value per non-blank
 * category, then `encode=json` and `charset=utf-8`. The HTTP request and the
 * JSON decoding are outside the model: the service is a function parameter.
 */
module Hitokoto {
  import opened Wrappers
  import opened Text

  /** Go's `url.Values`: each query key maps to its values, in the order they were added. */
  type Values = map<string, seq<string>>

  /** The decoded JSON body of the service (`Response` in main.go). */
  datatype Response = Response(hitokoto: string, from: string, fromWho: string)

  /** `url.Values.Add`: appends `value` to the values of `key`, creating the key if needed. */
  function Add(q: Values, key: string, value: string): (r: Values)
    ensures r.Keys == q.Keys + {key}
    ensures r[key] == (if key in q then q[key] else []) + [value]
    ensures forall k :: k in q && k != key ==> r[k] == q[k]
  {
    q[key := (if key in q then q[key] else []) + [value]]
  }

  /**
   * The `c` values the loop of `getHitokoto` adds for `categories`: each entry
   * trimmed, the blank ones skipped, the rest in input order.
   */
  function CategoryCodes(categories: seq<string>): (r: seq<string>)
    ensures |r| <= |categories|
    ensures forall i :: 0 <= i < |r| ==> r[i] != []
  {
    if categories == [] then []
    else
      var last := TrimSpace(categories[|categories| - 1]);
      CategoryCodes(categories[..|categories| - 1]) + (if last == [] then [] else [last])
  }

  /**
   * The query `getHitokoto` sends: `c` holds the category codes and is absent
   * when there are none, `encode` is `json`, `charset` is `utf-8`, and there
   * are no other keys.
   */
  function QueryFor(categories: seq<string>): (q: Values)
    ensures "c" in q <==> CategoryCodes(categories) != []
    ensures "c" in q ==> q["c"] == CategoryCodes(categories)
    ensures "encode" in q && q["encode"] == ["json"]
    ensures "charset" in q && q["charset"] == ["utf-8"]
    ensures q.Keys <= {"c", "encode", "charset"}
  {
    var codes := CategoryCodes(categories);
    var base: Values := if codes == [] then map[] else map["c" := codes];
    base["encode" := ["json"]]["charset" := ["utf-8"]]
  }

  /** The query-building loop of `getHitokoto`, adding to a `url.Values` one value at a time. */
  method BuildQuery(categories: seq<string>) returns (query: Values)
    ensures query == QueryFor(categories)
  {
    query := map[];
    var i := 0;
    while i < |categories|
      invariant 0 <= i <= |categories|
      invariant query.Keys <= {"c"}
      invariant "c" in query <==> CategoryCodes(categories[..i]) != []
      invariant "c" in query ==> query["c"] == CategoryCodes(categories[..i])
    {
      CategoryCodesStep(categories, i);
      var c := TrimSpace(categories[i]);
      if c != [] {
        query := Add(query, "c", c);
      }
      i := i + 1;
    }
    assert categories[..i] == categories;
    FixedParameters(query, categories);
    query := Add(query, "encode", "json");
    query := Add(query, "charset", "utf-8");
  }

  /** Adding `encode` and `charset` to the `c` values of the loop gives the whole query. */
  lemma FixedParameters(query: Values, categories: seq<string>)
    requires query.Keys <= {"c"}
    requires "c" in query <==> CategoryCodes(categories) != []
    requires "c" in query ==> query["c"] == CategoryCodes(categories)
    ensures Add(Add(query, "encode", "json"), "charset", "utf-8") == QueryFor(categories)
  {
    var r := Add(Add(query, "encode", "json"), "charset", "utf-8");
    var expected := QueryFor(categories);
    assert r.Keys == expected.Keys;
    assert forall k :: k in r ==> r[k] == expected[k];
  }

  /** One more entry of the loop adds its trimmed value, unless that is blank. */
  lemma CategoryCodesStep(categories: seq<string>, i: nat)
    requires i < |categories|
    ensures var c := TrimSpace(categories[i]);
      CategoryCodes(categories[..i + 1])
        == if c == [] then CategoryCodes(categories[..i]) else CategoryCodes(categories[..i]) + [c]
  {
    assert categories[..i + 1][..i] == categories[..i];
  }

  /**
   * `getHitokoto`: builds the query and sends it to the service, which answers
   * with a decoded response or fails.
   */
  method GetHitokoto(categories: seq<string>, fetch: Values -> Option<Response>)
    returns (resp: Option<Response>, sent: Values)
    ensures sent == QueryFor(categories)
    ensures resp == fetch(sent)
  {
    sent := BuildQuery(categories);
    resp := fetch(sent);
  }

  /**
   * Splitting a string into runes and running the loop over them yields
   * exactly the non-blank runes, each as its own value, in order.
   */
  lemma {:induction false} CodesOfRunes(s: string)
    ensures CategoryCodes(Explode(s)) == Explode(NonBlank(s))
  {
    if s != [] {
      var init, last := s[..|s| - 1], s[|s| - 1];
      assert s == init + [last];
      CodesOfRunes(init);
      CodesSnoc(init, last);
      NonBlankRunesSnoc(init, last);
    }
  }

  /** The loop over the runes of `init + [last]` adds `last` to the values for `init` unless it is a space. */
  lemma CodesSnoc(init: string, last: char)
    ensures CategoryCodes(Explode(init + [last]))
         == CategoryCodes(Explode(init)) + (if IsSpace(last) then [] else [[last]])
  {
    var runes := Explode(init + [last]);
    assert runes[..|runes| - 1] == Explode(init);
    assert runes[|runes| - 1] == [last];
    TrimSpaceRune(last);
    var t := TrimSpace([last]);
    assert CategoryCodes(runes) == CategoryCodes(Explode(init)) + (if t == [] then [] else [t]);
  }

  /** The non-blank runes of `init + [last]`, one string each, are those of `init` and then `last` unless it is a space. */
  lemma NonBlankRunesSnoc(init: string, last: char)
    ensures Explode(NonBlank(init + [last]))
         == Explode(NonBlank(init)) + (if IsSpace(last) then [] else [[last]])
  {
    NonBlankAppend(init, [last]);
    ExplodeAppend(NonBlank(init), NonBlank([last]));
    if IsSpace(last) {
      assert NonBlank([last]) == NonBlank([]);
    } else {
      assert NonBlank([last]) == [last] + NonBlank([]);
      ExplodeRune(last);
    }
  }

  /**
   * The query `main` makes for the environment value `category`: after
   * trimming the whole value and splitting it into runes, every non-blank
   * rune is one `c` value, in order; there is no `c` key at all when the value
   * is empty or only spaces; and there are never more `c` values than runes
   * in the trimmed value.
   */
  lemma CategoryQuery(category: string)
    ensures var q := QueryFor(Explode(TrimSpace(category)));
      && ("c" in q <==> !AllSpace(category))
      && ("c" in q ==> q["c"] == Explode(NonBlank(category)))
      && ("c" in q ==> |q["c"]| <= |TrimSpace(category)|)
  {
    var t := TrimSpace(category);
    CodesOfRunes(t);
    NonBlankEmpty(category);
    assert |Explode(NonBlank(t))| == |NonBlank(t)| <= |t|;
  }
}
