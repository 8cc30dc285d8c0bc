# Prompt-to-model matching of the Rivendell 3D model server

This project models, in Dafny, the logic of the FastAPI backend in
`backend/app/main.py` that turns a free-text prompt into one of the `.glb`
model files on disk:

- **the keyword table** (`AVAILABLE_MODELS`): at start-up the server lists its
  `models` directory, keeps the names ending in `.glb` and files each one
  under its name with every `.glb` removed, lowercased. It is a Python dict,
  so it iterates in insertion order, and a later file with the same keyword
  replaces the earlier value in place (`ModelTable`);
- **`find_model_by_keyword`**: three stages over that table, where the first
  hit wins. Stage 1 is exact: a keyword occurs in the lowercased prompt.
  Stage 2 is partial: a `_`/`-`/whitespace-separated part of a keyword,
  longer than two characters, occurs in the prompt. Stage 3 is reverse: a
  prompt word longer than two characters, taken after splitting on
  whitespace, `,` and `.`, occurs inside a keyword. Words are tried first,
  then table order (`Matching`);
- **`/download-model/{model_name}`**: the name gets `.glb` appended unless
  it already ends with it (`Server.DownloadName`, `Server.DownloadModel`);
- **the job table** (`generation_jobs`): `/generate-model` stores a job
  that is completed at once, and `/model-status/{job_id}` reads it back or
  answers "Job not found" (`Server.ModelServer`).

The Python string operations used are modelled in `PyStr`: `lower()`,
`in`, `endswith`, `replace` and `split()`. Their lemmas cover idempotent
lowercasing, the left-to-right removal of every `.glb`, and splitting that
recovers words joined by a space or by the separators the matcher uses.

Files: `wrappers.dfy` (Option, Result), `pystr.dfy`, `model_table.dfy`,
`matching.dfy`, `server.dfy`.

Things the server gets from outside are parameters of the model:
- the directory listing: `Option<seq<string>>`, where `None` means the
  directory is missing;
- `os.path.exists`: a set of existing paths;
- the job id (`uuid4`) and the clock (`time.time`).

## Model

| member | source | states |
|---|---|---|
| `PyStr.Lower` | backend/app/main.py:68 | `prompt.lower()` maps each character through ASCII lowercasing, keeps the length, and leaves no upper-case letter |
| `PyStr.LowerFixesExactlyLowercase` | backend/app/main.py:68 | lowercasing is idempotent; a string is its own lowercase exactly when it has no upper-case letter |
| `PyStr.LowerAppend` | backend/app/main.py:68 | lowercasing works character by character, so the lowercase of a concatenation is the concatenation of the lowercased pieces |
| `PyStr.Contains` | backend/app/main.py:72 | `sub in s` is false whenever `sub` is longer than `s`, and every string contains itself; `PyStr.ContainsOccurs` gives its exact meaning |
| `PyStr.ContainsFromOccurs` | backend/app/main.py:72 | the scan behind `in`, started at position `k`, succeeds exactly when the substring occurs at some position at or after `k` |
| `PyStr.ContainsOccurs` | backend/app/main.py:72 | `sub in s` holds exactly when `sub` occurs at some position of `s` |
| `PyStr.ContainsInContext` | backend/app/main.py:72 | a string occurs in any string built around it |
| `PyStr.EndsWithAppended` | backend/app/main.py:37 | `s.endswith(suffix)` holds exactly when `s` is some stem followed by `suffix` |
| `PyStr.RemoveAll` | backend/app/main.py:39 | `replace(pat, '')` never makes a string longer, and a result of the same length is the input unchanged; `PyStr.RemoveAllAbsent` and `PyStr.RemoveAllAtFirst` fix its result on every input |
| `PyStr.RemoveAllAbsent` | backend/app/main.py:39 | `replace(pat, '')` leaves a string without `pat` unchanged |
| `PyStr.RemoveFromAbsent` | backend/app/main.py:39 | the left-to-right scan of `replace(pat, '')`, started at position `k`, keeps the rest of the text unchanged when `pat` does not occur at or after `k` |
| `PyStr.RemoveFromAtFirst` | backend/app/main.py:39 | from position `k`, the scan keeps the text up to the first occurrence of `pat` at `i`, drops that occurrence and resumes right after it |
| `PyStr.RemoveFromShift` | backend/app/main.py:39 | the scan from position `m + k` depends only on the text from `m` on: it equals the scan of that suffix from `k` |
| `PyStr.RemoveAllAtFirst` | backend/app/main.py:39 | `replace(pat, '')` works left to right without overlap: the text before the leftmost occurrence is kept, that occurrence is dropped, and the text after it is processed in the same way |
| `PyStr.RemoveGlbOfPlainName` | backend/app/main.py:39 | `(stem + '.glb').replace('.glb', '')` is `stem` when `.glb` does not occur in `stem` |
| `PyStr.RemoveGlbAfterPlainStem` | backend/app/main.py:39 | when `.glb` does not occur in `stem`, removing `.glb` from `stem + '.glb' + rest` gives `stem` followed by `rest` with every `.glb` removed |
| `PyStr.ReplaceChar` | backend/app/main.py:79 | `s.replace(a, b)` for single characters keeps the length, turns every `a` into `b` and keeps every other character; when `a` differs from `b`, no `a` is left |
| `PyStr.ReplaceCharAppend` | backend/app/main.py:79 | replacing a character works position by position, so it distributes over concatenation |
| `PyStr.ReplaceCharAbsent` | backend/app/main.py:79 | a string without `a` is unchanged by `replace(a, b)` |
| `PyStr.LeadingSpaces` | backend/app/main.py:86 | the length of the maximal whitespace run at the front of a string |
| `PyStr.WordLength` | backend/app/main.py:86 | the length of the maximal non-whitespace run at the front of a string |
| `PyStr.Split` | backend/app/main.py:86 | every word `split()` returns is non-empty and contains no whitespace |
| `PyStr.SplitKeepsNonSpace` | backend/app/main.py:86 | concatenating the words of `split()` gives exactly the non-whitespace characters of the input, in order |
| `PyStr.SplitWordThen` | backend/app/main.py:86 | a word followed by nothing or by whitespace is the first word `split()` returns, and the rest is split on its own |
| `PyStr.SplitSkipsSpaces` | backend/app/main.py:86 | leading whitespace does not change the words `split()` returns |
| `PyStr.SplitOmits` | backend/app/main.py:86 | a character missing from the input is missing from every word `split()` returns |
| `PyStr.SplitJoinSpaced` | backend/app/main.py:79 | `split()` recovers a list of words joined by single spaces, so words are exactly the whitespace-separated runs |
| `PyStr.SplitReplacedKeeps` | backend/app/main.py:79 | after two separator characters are replaced by spaces, the words `split()` returns, concatenated, are exactly the input's characters that are neither whitespace nor a separator, in order |
| `PyStr.ReplaceInJoin` | backend/app/main.py:79 | in words joined by a separator, replacing a character that no word contains by a space only turns that separator into a space |
| `PyStr.SplitReplacedJoin` | backend/app/main.py:79 | words without whitespace and without `a` or `b`, joined by `a`, `b` or a space, are recovered exactly by replacing `a` and `b` with spaces and splitting |
| `ModelTable.Keys` | backend/app/main.py:169 | `list(AVAILABLE_MODELS.keys())` lists the keywords in table order |
| `ModelTable.FindKey` | backend/app/main.py:40 | the first position of a keyword in the table, or none exactly when the keyword is absent |
| `ModelTable.Lookup` | backend/app/main.py:40 | a dict lookup yields nothing exactly when the keyword is absent, and otherwise the pair of the keyword and the value is an entry of the table |
| `ModelTable.LookupEntry` | backend/app/main.py:40 | in a table with distinct keywords every entry is what its keyword looks up |
| `ModelTable.Put` | backend/app/main.py:40 | `d[k] = v` keeps keywords distinct, makes `k` look up `v`, leaves every other keyword's lookup alone, keeps the key order and appends `k` only when it is new |
| `ModelTable.ReplaceValue` | backend/app/main.py:40 | assigning to a present keyword keeps the keywords and their order, makes it look up the new value and leaves every other lookup alone |
| `ModelTable.AppendKey` | backend/app/main.py:40 | assigning to an absent keyword appends it at the end, keeps keywords distinct and leaves every other lookup alone |
| `ModelTable.AppendKeepsFind` | backend/app/main.py:40 | appending an entry does not change the lookup of any other keyword |
| `ModelTable.SameKeysSameFind` | backend/app/main.py:40 | replacing a value in place does not move any keyword |
| `ModelTable.KeywordOf` | backend/app/main.py:39 | a keyword is lowercase and no longer than its filename |
| `ModelTable.KeywordOfPlainName` | backend/app/main.py:37-39 | a name `stem + '.glb'` without another `.glb` is kept and listed under `stem` lowercased |
| `ModelTable.KeywordOfGlbFree` | backend/app/main.py:39 | a name without `.glb` anywhere is only lowercased |
| `ModelTable.KeywordOfAtFirstGlb` | backend/app/main.py:39 | every `.glb` is removed, left to right: the keyword is the lowercased text before the leftmost `.glb`, followed by the keyword of the text after it |
| `ModelTable.KeywordOfDoubleSuffix` | backend/app/main.py:37-39 | `stem.glb.glb` is filed under `stem` lowercased when `stem` has no `.glb`: both suffixes are removed |
| `ModelTable.AddFile` | backend/app/main.py:37-40 | one turn of the scan keeps keywords distinct; a `.glb` name becomes what its keyword looks up; every other keyword's lookup is unchanged; the key order is kept, a new keyword is appended at the end and a repeated one keeps its position |
| `ModelTable.Collect` | backend/app/main.py:36-40 | the table after the scan has pairwise distinct keywords and at most one entry per listed name |
| `ModelTable.CollectLastFiled` | backend/app/main.py:36-40 | a keyword looks up the name at the last position of the listing whose name is a `.glb` file filed under that keyword, or nothing when there is none |
| `ModelTable.CollectLookup` | backend/app/main.py:36-40 | after the scan a keyword is absent exactly when no `.glb` name yields it; otherwise it maps to the last such name in listing order |
| `ModelTable.FirstFiledIsFirst` | backend/app/main.py:36-40 | the first filing position of a keyword is the first name of the listing that is a `.glb` file filed under it, and there is none exactly when no such name is listed |
| `ModelTable.FiledExactlyWhenListed` | backend/app/main.py:36-40 | a keyword has a first filing position exactly when the scanned table has it |
| `ModelTable.CollectOrder` | backend/app/main.py:36-40 | the dict keeps insertion order: the table's keywords are ordered by the position of the first `.glb` name filed under each, and later names with the same keyword do not move it |
| `ModelTable.CollectEntries` | backend/app/main.py:36-40 | only names ending in `.glb` (case-sensitive) enter the table, each under its own keyword, and each is a name of the listing |
| `ModelTable.GetAvailableModels` | backend/app/main.py:30-43 | the loop builds the scanned table (empty when the directory is missing), with distinct lowercase keywords and `.glb` filenames only |
| `Matching.ExactHit` | backend/app/main.py:71-74 | stage 1 finds the first table entry whose keyword occurs in the prompt, or none exactly when no keyword does |
| `Matching.KeywordPartsHaveNoSeparators` | backend/app/main.py:79 | the parts of a keyword are non-empty words without whitespace; concatenated, they are exactly the keyword's characters other than whitespace, `_` and `-`, in order |
| `Matching.KeywordPartsOfJoined` | backend/app/main.py:79 | words joined by `_`, `-` or a space split back into exactly those words |
| `Matching.KeywordPartsOfPlainKeyword` | backend/app/main.py:79 | a keyword that is one word without `_` or `-` is its own only part |
| `Matching.PartHit` | backend/app/main.py:80-83 | the first keyword part longer than two characters that occurs in the prompt: no earlier part qualifies, and none is found exactly when no part qualifies |
| `Matching.PartialHit` | backend/app/main.py:77-83 | stage 2 finds the first table entry with a qualifying part, or none exactly when no keyword has one |
| `Matching.PartHitDecides` | backend/app/main.py:79-83 | the inner loop over a keyword's parts finds a part exactly when the keyword matches partially |
| `Matching.ShortPartsNeverMatch` | backend/app/main.py:81 | a keyword whose parts are all at most two characters long never matches partially |
| `Matching.PromptWords` | backend/app/main.py:86 | `,` and `.` act as separators, like whitespace: concatenated, the prompt words are exactly the prompt's other characters, in order |
| `Matching.PromptWordsOfJoined` | backend/app/main.py:86 | words joined by `,`, `.` or a space split back into exactly those words |
| `Matching.KeywordContaining` | backend/app/main.py:89-92 | the first table entry whose keyword contains a word, or none exactly when no keyword does |
| `Matching.ReverseHit` | backend/app/main.py:86-92 | stage 3 picks the first prompt word longer than two characters that some keyword contains, then the first keyword containing it; none exactly when no word qualifies |
| `Matching.ReverseHitFirst` | backend/app/main.py:86-92 | when prompt word `w` is the first one some keyword contains, and keyword `i` is the first containing it, stage 3 returns exactly that pair |
| `Matching.MatchPrompt` | backend/app/main.py:66-94 | the decision of the three stages always points into the table |
| `Matching.FindModelByKeyword` | backend/app/main.py:66-94 | the result is a filename of the table, and it is None exactly when no stage finds a hit |
| `Matching.ExactMatchWins` | backend/app/main.py:70-74 | when a keyword occurs in the lowercased prompt, the first such keyword in table order decides, even if an earlier keyword would match partially or in reverse |
| `Matching.MentionedKeywordFindsModel` | backend/app/main.py:70-74 | a prompt that contains a lowercase keyword of the table, in any letter case around it, is decided by stage 1 at that keyword or an earlier one |
| `Matching.PartialMatchWins` | backend/app/main.py:76-83 | with no exact match, the first keyword in table order with a qualifying part decides |
| `Matching.ReverseMatchWins` | backend/app/main.py:85-92 | with no exact or partial match, the first qualifying prompt word decides, then table order among the keywords containing it |
| `Matching.CaseInsensitive` | backend/app/main.py:68 | the result for a prompt equals the result for its lowercase form |
| `Matching.MatchIsListedModelFile` | backend/app/main.py:36-40 | on the table built from a listing, a match is a `.glb` name of that listing, filed under its own keyword |
| `Server.StatusCode` | backend/app/main.py:167-177 | a matched model whose file is missing is answered with 500, every other error with 404 |
| `Server.DownloadName` | backend/app/main.py:99-101 | the normalised download name ends in `.glb` and is either the requested name itself or that name with exactly `.glb` appended; with `Server.DownloadNameIdempotent` this fixes it on every input |
| `Server.DownloadNameIdempotent` | backend/app/main.py:100-101 | normalisation is idempotent and leaves a name unchanged exactly when it already ends in `.glb` |
| `Server.DownloadModel` | backend/app/main.py:96-112 | the download fails with a 404 not-found exactly when `models/<normalised name>` does not exist; otherwise it serves exactly that path under the normalised name, which ends in `.glb` |
| `Server.ModelServer.constructor` | backend/app/main.py:27-46 | start-up builds the keyword table from the listing and an empty job table |
| `Server.ModelServer.ModelStatus` | backend/app/main.py:231-245 | status lookup fails with "Job not found" (status 404) exactly when the id is absent; a stored job reads back as completed, progress 1.0, URL `/models/<file>`, no error |
| `Server.ModelServer.GenerateModel` | backend/app/main.py:159-198 | no match gives a 404 not-found error carrying the keyword list, and a missing file gives a 500 error; both leave the jobs unchanged. Otherwise exactly the entry for the given id is set to a completed job with progress 1.0 and URL `/models/<file>`, which the status lookup then reports |

## Left out

- `whisper/whisper_server.py` and `whisper/test_server.py` are not part of this model. They are a WebSocket speech-transcription service and its network smoke test: I/O, concurrency and foreign ML calls.
- The agent-population simulation is not part of this model. That covers snapshot interpolation, index-based category sampling, staggered transitions and clustering forces. None of its source is among the files modelled.
- FastAPI plumbing is left out: route registration, CORS, the static `/models` mount, `FileResponse` bodies, `print` logging and `uvicorn` start-up.
- `os.listdir`, `os.path.exists`, `uuid.uuid4` and `time.time` are parameters. The model does not assume that a fresh uuid differs from every stored id: an equal id overwrites the stored job, as the dict assignment would.
- Read-only routes that only report the table (`/debug/models`, `/health`, `/`, `/available-models`) are left out. `/generate-model-direct` is also left out: it repeats the match and existence check of `/generate-model` without storing a job.
- The second `download_model` and `health_check` (lines 247-264) are not modelled. They are registered on the same paths after the first ones, so those earlier routes answer.
- `PyStr.Lower`: lowercases ASCII letters only. Python's `str.lower()` also folds non-ASCII letters, and can change a string's length.
- `PyStr.Split`: whitespace is Python's `str.isspace()` set of code points, written out; no other Unicode handling is modelled.
- Floats (`x`, `z`, `progress`, `created_at`) are Dafny `real`s; `x` and `z` are `Option<real>` because the request allows `null`. Their defaults of 0 belong to request parsing, which is not modelled.
- `Server.ModelServer.ModelStatus`: a stored job never has an `"error"` key, since only `generate_model` writes jobs, so the response's error is always `None`.
