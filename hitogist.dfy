/**
 * One run of the program (`main` and `updateGist` in main.go): read the
 * configuration, refuse to start without a token, fetch a quote, and write it
 * into one file of a gist.
 *
 * Everything outside the program is a parameter: the hitokoto service
 * (`fetch`), the GitHub gist API (`getGist`, `edit`), the clock formatted in
 * the Asia/Taipei zone (`now`, absent when the zone cannot be loaded) and the
 * OpenCC simplified-to-traditional converter (`s2t`, absent on failure). The
 * run reports, besides its outcome, the remote calls it made, in order.
 */
module HitoGist {
  import opened Wrappers
  import opened Text
  import opened Hitokoto
  import opened Gist

  /**
   * The conditions under which the program stops: `log.Fatal` for all but
   * `NilFileMap`, which is the runtime panic of writing into a nil Go map.
   */
  datatype Error =
    | MissingToken
    | FetchFailed
    | GistGetFailed
    | TimeZoneFailed
    | ConversionFailed
    | NilFileMap
    | GistEditFailed

  /** A request sent to a remote service. */
  datatype Call =
    | FetchQuote(query: Values)
    | GetGist(token: string, gistId: string)
    | EditGist(token: string, gistId: string, files: Files)

  datatype Outcome = Updated(files: Files) | Failed(error: Error)

  /** The raw environment: `CATEGORY`, `FILE_NAME`, `GH_TOKEN`, `GIST_ID` (empty when unset). */
  datatype Env = Env(category: string, fileName: string, ghToken: string, gistId: string)

  /** The configuration `main` derives from the environment. */
  datatype Config = Config(categories: seq<string>, fileName: string, token: string, gistId: string)

  /**
   * Every value is trimmed, and `CATEGORY` is split into its runes: one
   * category per rune of the trimmed value.
   */
  function ConfigOf(env: Env): (c: Config)
    ensures |c.categories| == |TrimSpace(env.category)|
    ensures forall i :: 0 <= i < |c.categories| ==> c.categories[i] == [TrimSpace(env.category)[i]]
    ensures c.fileName == TrimSpace(env.fileName)
    ensures c.token == TrimSpace(env.ghToken) && c.gistId == TrimSpace(env.gistId)
    ensures c.token == [] <==> AllSpace(env.ghToken)
  {
    Config(Explode(TrimSpace(env.category)), TrimSpace(env.fileName),
           TrimSpace(env.ghToken), TrimSpace(env.gistId))
  }

  /** The file map `updateGist` submits: `fetched` with `fileName` set to the composed content. */
  function Submitted(fetched: Files, fileName: string, resp: Response, hito: string, now: string): (r: Files)
    ensures fileName in r
    ensures r[fileName].content
         == Some(hito + Attribution(resp.from, resp.fromWho) + UpdatedLabel + now)
    ensures r.Keys == fetched.Keys + {fileName}
    ensures forall k :: k in fetched && k != fileName ==> r[k] == fetched[k]
  {
    WithFileContent(fetched, fileName, Content(hito, Attribution(resp.from, resp.fromWho), now))
  }

  /**
   * `updateGist`: get the gist, take the time, build the attribution,
   * convert the quote, compose the content, set it into the file and submit
   * the whole gist. Each failure stops the run at that point, including the
   * panic of writing into a gist whose file map is nil; the only remote calls
   * are the get and, when everything before it succeeded, the edit.
   */
  method UpdateGist(token: string, gistId: string, fileName: string, resp: Response,
                    getGist: (string, string) -> Option<FetchedGist>,
                    now: Option<string>,
                    s2t: string -> Option<string>,
                    edit: (string, string, Files) -> bool)
    returns (outcome: Outcome, calls: seq<Call>)
    ensures var got := getGist(token, gistId);
      got.None? ==> outcome == Failed(GistGetFailed) && calls == [GetGist(token, gistId)]
    ensures var got := getGist(token, gistId);
      got.Some? && now.None? ==>
        outcome == Failed(TimeZoneFailed) && calls == [GetGist(token, gistId)]
    ensures var got := getGist(token, gistId);
      got.Some? && now.Some? && s2t(resp.hitokoto).None? ==>
        outcome == Failed(ConversionFailed) && calls == [GetGist(token, gistId)]
    ensures var got := getGist(token, gistId);
      got.Some? && now.Some? && s2t(resp.hitokoto).Some? && got.value.files.None? ==>
        outcome == Failed(NilFileMap) && calls == [GetGist(token, gistId)]
    ensures var got := getGist(token, gistId);
      got.Some? && now.Some? && s2t(resp.hitokoto).Some? && got.value.files.Some? ==>
        var files := Submitted(got.value.files.value, fileName, resp, s2t(resp.hitokoto).value, now.value);
        && calls == [GetGist(token, gistId), EditGist(token, gistId, files)]
        && outcome == if edit(token, gistId, files) then Updated(files) else Failed(GistEditFailed)
  {
    calls := [GetGist(token, gistId)];
    var fetched := getGist(token, gistId);
    if fetched.None? {
      return Failed(GistGetFailed), calls;
    }
    if now.None? {
      return Failed(TimeZoneFailed), calls;
    }
    var from := Attribution(resp.from, resp.fromWho);
    var hito := s2t(resp.hitokoto);
    if hito.None? {
      return Failed(ConversionFailed), calls;
    }
    var content := Content(hito.value, from, now.value);
    if fetched.value.files.None? {
      return Failed(NilFileMap), calls;
    }
    var gist := new Gist(fetched.value.files.value);
    gist.SetFileContent(fileName, content);
    calls := calls + [EditGist(token, gistId, gist.files)];
    if !edit(token, gistId, gist.files) {
      return Failed(GistEditFailed), calls;
    }
    outcome := Updated(gist.files);
  }

  /**
   * The part of `main` after the token guard: fetch a quote with the query
   * for the categories, stop when that fails, and otherwise update the gist.
   * The first call is the fetch; after it, every later failure stops the run
   * with its own error, and the edit is sent only when everything before it
   * succeeded.
   */
  method FetchAndUpdate(c: Config,
                        fetch: Values -> Option<Response>,
                        getGist: (string, string) -> Option<FetchedGist>,
                        now: Option<string>,
                        s2t: string -> Option<string>,
                        edit: (string, string, Files) -> bool)
    returns (outcome: Outcome, calls: seq<Call>)
    ensures outcome != Failed(MissingToken)
    ensures calls != [] && calls[0] == FetchQuote(QueryFor(c.categories))
    ensures fetch(QueryFor(c.categories)).None? ==>
      outcome == Failed(FetchFailed) && calls == [FetchQuote(QueryFor(c.categories))]
    ensures var resp := fetch(QueryFor(c.categories));
      var got := getGist(c.token, c.gistId);
      var head := [FetchQuote(QueryFor(c.categories)), GetGist(c.token, c.gistId)];
      resp.Some? ==>
        && (got.None? ==> outcome == Failed(GistGetFailed) && calls == head)
        && (got.Some? && now.None? ==> outcome == Failed(TimeZoneFailed) && calls == head)
        && (got.Some? && now.Some? && s2t(resp.value.hitokoto).None? ==>
              outcome == Failed(ConversionFailed) && calls == head)
        && (got.Some? && now.Some? && s2t(resp.value.hitokoto).Some? && got.value.files.None? ==>
              outcome == Failed(NilFileMap) && calls == head)
        && (got.Some? && now.Some? && s2t(resp.value.hitokoto).Some? && got.value.files.Some? ==>
              var files := Submitted(got.value.files.value, c.fileName, resp.value,
                                     s2t(resp.value.hitokoto).value, now.value);
              && calls == head + [EditGist(c.token, c.gistId, files)]
              && outcome == if edit(c.token, c.gistId, files) then Updated(files) else Failed(GistEditFailed))
  {
    var resp, query := GetHitokoto(c.categories, fetch);
    calls := [FetchQuote(query)];
    if resp.None? {
      return Failed(FetchFailed), calls;
    }
    var more;
    outcome, more := UpdateGist(c.token, c.gistId, c.fileName, resp.value, getGist, now, s2t, edit);
    calls := calls + more;
  }

  /**
   * `main`: a blank token stops the run before any remote call; otherwise the
   * first call fetches a quote with the query for the categories, a failed
   * fetch stops there, every later failure stops the run with its own error
   * before any edit is sent, and the run succeeds exactly when every step
   * succeeds, having submitted the fetched gist with the configured file set
   * to the converted quote, its attribution and the time stamp.
   */
  method Run(env: Env,
             fetch: Values -> Option<Response>,
             getGist: (string, string) -> Option<FetchedGist>,
             now: Option<string>,
             s2t: string -> Option<string>,
             edit: (string, string, Files) -> bool)
    returns (outcome: Outcome, calls: seq<Call>)
    ensures var c := ConfigOf(env);
      && (c.token == [] <==> calls == [])
      && (c.token == [] <==> outcome == Failed(MissingToken))
      && (c.token != [] ==> calls[0] == FetchQuote(QueryFor(c.categories)))
      && (c.token != [] && fetch(QueryFor(c.categories)).None? ==>
            outcome == Failed(FetchFailed) && calls == [FetchQuote(QueryFor(c.categories))])
    ensures var c := ConfigOf(env);
      var resp := fetch(QueryFor(c.categories));
      var got := getGist(c.token, c.gistId);
      var head := [FetchQuote(QueryFor(c.categories)), GetGist(c.token, c.gistId)];
      c.token != [] && resp.Some? ==>
        && (got.None? ==> outcome == Failed(GistGetFailed) && calls == head)
        && (got.Some? && now.None? ==> outcome == Failed(TimeZoneFailed) && calls == head)
        && (got.Some? && now.Some? && s2t(resp.value.hitokoto).None? ==>
              outcome == Failed(ConversionFailed) && calls == head)
        && (got.Some? && now.Some? && s2t(resp.value.hitokoto).Some? && got.value.files.None? ==>
              outcome == Failed(NilFileMap) && calls == head)
        && (got.Some? && now.Some? && s2t(resp.value.hitokoto).Some? && got.value.files.Some? ==>
              var files := Submitted(got.value.files.value, c.fileName, resp.value,
                                     s2t(resp.value.hitokoto).value, now.value);
              && calls == head + [EditGist(c.token, c.gistId, files)]
              && outcome == if edit(c.token, c.gistId, files) then Updated(files) else Failed(GistEditFailed))
    ensures var c := ConfigOf(env);
      var resp := fetch(QueryFor(c.categories));
      var got := getGist(c.token, c.gistId);
      outcome.Updated? <==>
        && c.token != [] && resp.Some? && got.Some? && now.Some? && s2t(resp.value.hitokoto).Some?
        && got.value.files.Some?
        && edit(c.token, c.gistId,
                Submitted(got.value.files.value, c.fileName, resp.value, s2t(resp.value.hitokoto).value, now.value))
    ensures var c := ConfigOf(env);
      var resp := fetch(QueryFor(c.categories));
      var got := getGist(c.token, c.gistId);
      outcome.Updated? ==>
        && resp.Some? && got.Some? && now.Some? && s2t(resp.value.hitokoto).Some? && got.value.files.Some?
        && outcome.files
           == Submitted(got.value.files.value, c.fileName, resp.value, s2t(resp.value.hitokoto).value, now.value)
        && calls == [FetchQuote(QueryFor(c.categories)), GetGist(c.token, c.gistId),
                     EditGist(c.token, c.gistId, outcome.files)]
  {
    var c := ConfigOf(env);
    if c.token == [] {
      return Failed(MissingToken), [];
    }
    outcome, calls := FetchAndUpdate(c, fetch, getGist, now, s2t, edit);
  }
}
