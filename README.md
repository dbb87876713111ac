# hitogist in Dafny

hitogist is a small Go program that runs on a schedule. It takes one quote from
the hitokoto quotation service, converts the quote from simplified to
traditional Chinese with OpenCC, and writes it into one file of a GitHub gist.
The file also gets an attribution line and an "updated at" time stamp.

This project models the deterministic parts of `main.go`. The services the
program talks to are parameters.

- **Configuration** (`HitoGist.ConfigOf`). Each of `CATEGORY`, `FILE_NAME`,
  `GH_TOKEN` and `GIST_ID` is trimmed with Go's `strings.TrimSpace`. The
  trimmed `CATEGORY` is then split into single-rune categories. Go's
  `unicode.IsSpace`, `strings.TrimSpace` and `strings.Split(s, "")` are
  written out in module `Text`.
- **Query construction** (`Hitokoto.BuildQuery`). A loop trims each category,
  skips the blank ones and adds the rest as `c` values to a `url.Values` map.
  It then adds `encode=json` and `charset=utf-8`. The method is proved
  against `Hitokoto.QueryFor`. The lemmas about that function say which `c`
  values the query gets for a given `CATEGORY`.
- **Attribution and content** (`Gist.Attribution`, `Gist.Content`). The
  attribution is empty, or `"\n ---"` followed by the source work. When the
  work is empty it uses the author instead. The content is the converted
  quote, then the attribution, then `"\n\n更新於 "`, then the time stamp.
- **The gist update** (`Gist.Gist.SetFileContent`). This changes the gist's
  file map in place. It looks up the file, which gives a zero file when the
  name is missing, sets its content and stores it back. `Gist.WithFileContent`
  states the result.
- **The run** (`HitoGist.Run`, `HitoGist.FetchAndUpdate`,
  `HitoGist.UpdateGist`). A blank token stops the run before any remote call.
  After that, every failure is fatal and stops the run where it happens. Each
  run returns its outcome and the list of remote calls it made: the quote
  fetch, the gist get and the gist edit.

These parts of the outside world become parameters:

- the hitokoto service (`fetch`, from the query to an optional decoded response);
- the GitHub gist API (`getGist` and `edit`);
- the clock, already formatted in the Asia/Taipei zone (`now`, absent when
  the zone cannot be loaded);
- the OpenCC converter (`s2t`, absent when it fails).

In these details the model follows what the code does:

- Only the quote text goes through the simplified-to-traditional
  conversion. The attribution is written as received (main.go:97-114).
- `getHitokoto` checks only the transport error from resty. It does not check
  the HTTP status (main.go:69-75). So a non-2xx answer is not a fetch error
  in the program. It is whatever the `fetch` parameter returns for it.
- A whitespace-only `GH_TOKEN` is refused like a missing one, because the
  token is trimmed before the check (main.go:33-38).
- The failures inside `updateGist` call `log.Fatal` and do not return an
  error (main.go:87-122). The model reports each one as a `Failed` outcome
  that ends the run.
- go-github leaves a gist's file map nil when the response has no `files`
  member. Writing into it at main.go:118 then panics. The model reports this
  as the `NilFileMap` failure, after the conversion and before any edit.

## Model

| member | source | states |
|---|---|---|
| Text.TrimSpace | main.go:30-34 | the trimmed value has no space at either end, keeps every non-blank rune in order, and is empty exactly when the value is empty or all spaces |
| Text.TrimSpaceIsInfix | main.go:30-34 | what trimming keeps is one contiguous run of the value, with only spaces before and after it, so inner spaces of `FILE_NAME`, `GH_TOKEN` and `GIST_ID` stay |
| Text.TrimSpaceRune | main.go:59 | trimming a single-rune category gives the empty string for a space rune and the rune itself otherwise |
| Text.Explode | main.go:31 | splitting with an empty separator gives one single-rune string per rune, in order |
| HitoGist.ConfigOf | main.go:30-34 | the categories are the runes of the trimmed `CATEGORY`, one per entry; the file name, token and gist id are `FILE_NAME`, `GH_TOKEN` and `GIST_ID` trimmed; the token is empty exactly when `GH_TOKEN` is all spaces |
| Hitokoto.Add | main.go:62 | `url.Values.Add` appends the value to that key's values, creates the key if it is missing, and leaves other keys alone |
| Hitokoto.CategoryCodes | main.go:58-64 | the loop adds at most one value per category, and never an empty value |
| Hitokoto.QueryFor | main.go:57-66 | the query has a `c` key exactly when some category is non-blank, and then it holds the trimmed non-blank categories in order; `encode` is `["json"]`, `charset` is `["utf-8"]`, and there are no other keys |
| Hitokoto.BuildQuery | main.go:57-66 | the loop that adds values to `url.Values` one at a time builds exactly `QueryFor(categories)` |
| Hitokoto.GetHitokoto | main.go:53-77 | the service is called once, with the built query, and its answer or failure is returned |
| Hitokoto.CodesOfRunes | main.go:58-64 | over the runes of a string, the `c` values are exactly the non-blank runes, one single-rune value each, in input order |
| Hitokoto.CategoryQuery | main.go:30-66 | for the environment value `CATEGORY`: every non-blank rune is one `c` value, in order; there is no `c` key when the value is empty or all spaces; there are never more `c` values than runes in the trimmed value |
| Gist.Attribution | main.go:97-104 | the suffix is empty exactly when both the work and the author are empty; a non-empty work wins, whatever the author is; otherwise the author is used |
| Gist.AttributionNamesFirst | main.go:97-104 | the suffix names the first non-empty of (work, author), and is empty when there is none |
| Gist.Content | main.go:114 | the content is the quote, the attribution, `"\n\n更新於 "` and the time stamp, each readable back from its position; it starts with the quote and ends with the label and the time stamp |
| Gist.WithFileContent | main.go:116-118 | afterwards the named file holds the content; the key set is the old one plus that name; an existing file keeps its other fields; a missing file is created with only its content set; every other file is unchanged |
| Gist.WithFileContentLastWins | main.go:116-118 | writing the same file twice leaves only the second content, so each scheduled run replaces what the previous run wrote |
| Gist.Gist.SetFileContent | main.go:116-118 | the in-place update leaves the gist's file map equal to `WithFileContent` of the old map |
| HitoGist.Submitted | main.go:114-118 | the submitted map holds `quote + attribution + "\n\n更新於 " + now` under the configured file name, and every other file is unchanged |
| HitoGist.UpdateGist | main.go:79-125 | the gist is fetched first. A failed get, time-zone load or conversion, or a nil file map, stops with that error, and the get was the only remote call. Otherwise the single edit submits `Submitted(...)`, and the run succeeds exactly when that edit succeeds |
| HitoGist.FetchAndUpdate | main.go:40-51 | after the token guard, the first call is the quote fetch with `QueryFor` of the categories, and a failed fetch stops there with `FetchFailed`. Then a failed get, time-zone load or conversion, or a nil file map, stops with that error after exactly the fetch and the get. Otherwise the third and last call is the edit of `Submitted(...)`, and the run succeeds exactly when that edit succeeds |
| HitoGist.Run | main.go:29-51 | a blank `GH_TOKEN` fails with no remote call at all, and every other run makes at least one. The first call is the quote fetch with `QueryFor` of the categories, and a failed fetch stops there. Each later failure ends the run with its own error and the exact calls made so far, so no edit follows a failed step. The run succeeds exactly when every step succeeds and the fetched gist has a file map. It then made exactly three calls (fetch, get, edit), and the submitted gist has the file set to the composed content |

## Left out

- HTTP fetching through resty and JSON decoding into `Response` (main.go:54, 68-76). They are network I/O done by an outside library. The decoded response, or a failure, comes from the `fetch` parameter.
- The GitHub and oauth2 client setup, and the `Gists.Get` and `Gists.Edit` calls (main.go:80-86, 120). They are remote API calls. The fetched gist comes from `getGist` as its file map, possibly nil, and the success of the edit comes from `edit`. Only the gist's file map is modelled. The rest of the gist object is passed back untouched by the program and is not represented.
- The OpenCC `s2t` conversion (main.go:106-113). It is an outside library with opaque mapping tables. The converted text is whatever `s2t` returns.
- `time.LoadLocation`, `time.Now` and the RFC 1123 formatting (main.go:91-95). They depend on the clock and the time-zone database. The formatted time stamp is the opaque `now` parameter.
- `log.Fatal` and `os.Getenv` (main.go:30-50, 87-122). They are process and environment plumbing. The environment is the `Env` value, and each fatal exit is a `Failed` outcome.
- The final URL encoding of the query and its key order inside resty and `url.Values.Encode`. That is library behaviour that the program does not show.
- Invalid UTF-8 in `CATEGORY`: Go's `strings.Split(s, "")` turns each byte of invalid UTF-8 into its own element. Strings here are sequences of Unicode scalar values, so invalid UTF-8 cannot occur.
- The `context.Context` passed to the GitHub calls carries no deadline or value that the program uses.
