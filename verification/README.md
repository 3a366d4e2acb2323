# Reddit confessions podcast: verified model of the processing core

`main.py` runs a small batch job. It fetches the "hot" text posts of one
subreddit and turns each new one into a spoken MP3 through a text-to-speech
service. It records the ids it has handled and writes a static HTML page
listing the episodes. This project models the sequential logic under that
plumbing and proves what it promises:

- `sanitize_filename`: the character replacement, underscore collapsing,
  stripping and 100-character cut (`filename.dfy`, on Python's `str.strip`
  in `text.dfy`);
- the narration text, the 5000-character cap and the three-attempt retry of
  `generate_tts`, with the synthesizer as an oracle of per-attempt outcomes
  (`narration.dfy`);
- the fetch, filter and accept loop of `fetch_and_process_posts`
  (`pipeline.dfy`):
  - `Run` folds one loop step over the listing and serves as the
    specification;
  - `FetchAndProcess` is the loop itself, extending the caller's
    `ProcessedIds` object in place;
- the empty check and the stable newest-first in-place sort of
  `generate_html` (`page.dfy`). The sort is an insertion sort on an `array`,
  and the page is modelled by its structure;
- loading the history of processed ids (`history.dfy`).

Inputs the program gets from the outside world are parameters of the model:

- the listing is a sequence of submission records;
- `failAt` is the index at which iterating the listing raises;
- the audio directory is the set of paths that exist;
- `synth[i]` lists the outcomes of the synthesizer attempts for the i-th
  listed submission;
- the history file is one of missing, unreadable, undecodable or a decoded
  list of ids;
- the date formatter and the current time are parameters of the page.

Strings are sequences of Unicode code points, as Python's `str` is.

In `sanitize_filename` the strip of `_` (main.py:44) comes before the
100-character cut (main.py:46), so the cut can leave a trailing underscore
behind even though the strip ran. `Filename.SanitizeCanEndWithUnderscore`
gives an input where this happens, and
`Filename.SanitizeNoTrailingUnderscore` gives the condition under which it
cannot happen.

## Model

| member | source | states |
|---|---|---|
| Text.DropLeadingSpec | main.py:44 | what `strip` removes at the front is a run of removable characters, and the rest is a suffix of the input that starts with a kept character |
| Text.DropTrailingSpec | main.py:44 | what `strip` removes at the back is a run of removable characters, and the rest is a prefix of the input that ends with a kept character |
| Text.Strip | main.py:44 | the stripped string is no longer than the input and neither starts nor ends with a removable character |
| Text.StripIsSlice | main.py:44 | the stripped string is the slice of the input between a removable prefix and a removable suffix |
| Text.StripUnchanged | main.py:44 | a string that starts and ends with a kept character is its own strip |
| Text.Trim | main.py:141 | `title.strip()` is no longer than the title and neither starts nor ends with a whitespace character |
| Filename.ReplaceInvalid | main.py:40 | same length; every character is in `[A-Za-z0-9_.-]`; allowed characters are kept in place and every other character becomes `_` |
| Filename.ReplaceUnchanged | main.py:40 | a string of allowed characters is left unchanged by the replacement |
| Filename.CollapseUnderscores | main.py:42 | `re.sub(r'_+', '_', name)` is no longer than its input; the lemmas below characterize it |
| Filename.CollapseSpec | main.py:42 | collapsing leaves no two adjacent underscores, keeps the first and last characters and keeps a string of allowed characters allowed |
| Filename.CollapseKeepsOthers | main.py:42 | collapsing keeps every character other than `_`, in order |
| Filename.CollapseUnchanged | main.py:42 | a string without adjacent underscores is left unchanged by collapsing |
| Filename.CollapseRun | main.py:42 | a run of any number of underscores, anywhere in the string, collapses as a single underscore does; with `CollapseUnchanged` this determines the result on every input |
| Filename.CollapseAfter | main.py:42 | collapsing works from the front: two tails that start with the same character and collapse alike still collapse alike after any common prefix |
| Filename.StrippedClean | main.py:40-44 | after replacement, collapsing and `strip('_')` the name has only allowed characters, no adjacent underscores and no `_` at either end |
| Filename.StripKeepsClean | main.py:44 | stripping `_` from a clean name keeps it clean |
| Filename.StrippedOfClean | main.py:40-44 | for a clean name, the first two steps change nothing and only the strip acts |
| Filename.StripOfUnprefixed | main.py:44 | a name that does not start with `_` only loses its trailing underscores to the strip |
| Filename.Sanitize | main.py:37-46 | the result has only characters of `[A-Za-z0-9_.-]`, at most 100 of them, no two adjacent underscores, and does not start with `_` |
| Filename.SanitizeEmpty | main.py:37-46 | the empty name sanitizes to the empty string |
| Filename.SanitizeUnchanged | main.py:37-46 | a clean name of at most 100 characters that neither starts nor ends with `_` is its own sanitization |
| Filename.SanitizeNoTrailingUnderscore | main.py:44-46 | when the stripped name fits in 100 characters, the result does not end with `_` |
| Filename.SanitizeCanEndWithUnderscore | main.py:44-46 | 99 letters, a space and a letter sanitize to 99 letters and `_`: the cut after the strip can leave a trailing underscore |
| Filename.SanitizeClean | main.py:37-46 | a clean name of at most 100 characters that does not start with `_` only loses its trailing underscores |
| Filename.SanitizeTwice | main.py:37-46 | sanitizing a sanitized name only removes the trailing underscores the cut may have left |
| Filename.AudioFileNameShape | main.py:145-146 | every audio file name is the post id, `_`, at most 100 file-name-safe characters and `.mp3`, whatever the title |
| Filename.AudioFileName | main.py:145-146 | the audio file name is the post id, `_`, the sanitized clean title and `.mp3`, in that order and nothing else |
| Narration.NarrationText | main.py:142 | the narration is `Title: `, the clean title, `. Story: ` and the body, with the length of the four together |
| Narration.CapLength | main.py:73-75 | a text of at most 5000 characters is unchanged; a longer one becomes its first 5000 characters followed by the truncation suffix |
| Narration.AudioPath | main.py:79 | the path ends with the file name; a relative name is `audio/` followed by the name (an absolute name replaces the directory, as POSIX `os.path.join` does) |
| Narration.AttemptsFrom | main.py:82-92 | counting from attempt `k`, the attempts stop at the first success or after the third attempt, and every earlier attempt failed |
| Narration.AttemptsMade | main.py:82-94 | between one and three attempts are made; all but the last failed; the last succeeded exactly when one of the three attempts succeeds |
| Narration.GenerateTts | main.py:70-94 | the synthesizer is given the capped text; the file name is returned exactly when one of the three attempts succeeds, after the first success and no later attempt; `None` comes only after three failed attempts |
| Pipeline.Prepare | main.py:138-168 | the record derived from a submission carries the submission and its id |
| Pipeline.Eligible | main.py:130-134 | the skip test negated: not processed, not stickied, a text post, and a non-empty body of at least 50 characters |
| Pipeline.MakePost | main.py:161-168 | the record of an accepted submission: id, clean title, body, audio file name, creation time and full URL |
| Pipeline.Step | main.py:129-169 | a submission that fails the filter changes nothing; one that passes is appended, its id added and its file present afterwards exactly when its audio file existed or one of the three attempts succeeds, and nothing else changes otherwise; the synthesizer is given the capped narration exactly when the submission passes and its file does not exist |
| Pipeline.Run | main.py:128-169 | the loop yields no more posts, and makes no more `generate_tts` calls, than there are reached submissions |
| Pipeline.Fetched | main.py:128 | the reached submissions are the first `min(len(listing), 10)` of the listing, and only the first `min(len(listing), 10, k)` when iterating raises at index `k` |
| Pipeline.Process | main.py:120-176 | `fetch_and_process_posts` returns at most 10 posts, with at most 10 `generate_tts` calls, and at most `k` posts when the listing raises at index `k` |
| Pipeline.RunProcessed | main.py:161-169 | after the loop the caller's set is its old contents plus the ids of the accepted posts |
| Pipeline.RunProcessedGrows | main.py:169 | the caller's set only grows |
| Pipeline.RunIdsFreshAndDistinct | main.py:130-169 | no accepted id was in the caller's set, and the accepted posts have pairwise distinct ids |
| Pipeline.RunInListingOrder | main.py:128-169 | the accepted posts are a subsequence, in listing order, of the records of the submissions that pass the filter against the caller's set |
| Pipeline.QualifyingMembers | main.py:130-136 | every post that passes the filter is the record of a submission that passes it |
| Pipeline.AcceptedPostsQualify | main.py:128-169 | every returned post is the record of a fetched submission that is not processed, not stickied, a text post and has a body of at least 50 characters |
| Pipeline.AcceptedAudioNames | main.py:141-147 | every returned post's audio file is `id + "_" + sanitize_filename(clean_title) + ".mp3"` and has the shape of `Filename.AudioFileNameShape` |
| Pipeline.ProcessIds | main.py:120-176 | for the whole function: the returned set is the initial set plus the returned ids, no returned id was already processed, and the returned ids are pairwise distinct |
| Pipeline.RunFiles | main.py:149-158 | the audio directory only grows, holds the file of every accepted post, and gains no file other than those |
| Pipeline.ProcessFiles | main.py:149-158 | for the whole function: every returned post's file `audio/<audio_file>` exists afterwards, and no other file was created |
| Pipeline.RunPrefix | main.py:124-176 | a loop stopped after the first `j` submissions has produced prefixes (posts, synthesizer calls) and subsets (ids, files) of what the full loop produces |
| Pipeline.ExceptionKeepsPrefix | main.py:171-176 | an exception from the listing at index `k` returns exactly what a run over the listing cut before `k` returns, and that is a prefix of the run without the exception |
| Pipeline.FetchedCut | main.py:128 | raising at index `k` reaches the same submissions as a listing that ends before `k` |
| Pipeline.ExistingAudioReused | main.py:150-152 | when the audio file exists the synthesizer is not called and the post is accepted |
| Pipeline.SynthesizedAccepted | main.py:153-169 | when the audio file is missing and one of the three attempts succeeds, the post is appended, its id added, its file created, and one `generate_tts` call with the capped narration is recorded |
| Pipeline.FailedSynthesisSkipped | main.py:155-158 | when all three attempts fail the submission is skipped: no post, no id, no file, and one `generate_tts` call (three synthesizer attempts) is recorded |
| Pipeline.RunAccepts | main.py:128-169 | a submission that passes the filter against the state the loop has reached, and whose file exists or is synthesized, is in the final list, right after the posts accepted before it |
| Pipeline.ProcessAccepts | main.py:120-169 | for the whole function: the record of every such fetched submission is returned |
| Pipeline.ProcessedIds.constructor | main.py:120 | the set object starts with the caller's ids |
| Pipeline.ProcessedIds.Add | main.py:169 | `processed_ids.add(id)` adds exactly that id |
| Pipeline.FetchAndProcess | main.py:120-176 | the loop returns exactly what `Process` specifies, and leaves the caller's set equal to its old contents plus the returned ids |
| Page.InsertByDate | main.py:279 | inserting a post after every post dated no earlier than it grows the list by one; the lemmas below give its order and contents |
| Page.SortNewestFirst | main.py:279 | the sort as insertion of each post in input order; `SortNewestFirstSorted`, `SortNewestFirstStable` and `SortNewestFirstUnique` state what it computes |
| Page.DescendingIsNewestFirst | main.py:279 | a list in which every post is no newer than the one before is ordered newest first over all pairs |
| Page.InsertKeepsOrder | main.py:279 | inserting a post into a newest-first list keeps it newest first |
| Page.InsertKeepsPosts | main.py:279 | inserting a post adds exactly that post |
| Page.InsertAt | main.py:279 | the insertion point is where the backward scan over older posts stops |
| Page.WithDateInsert | main.py:279 | inserting a post puts it after every post of the same date |
| Page.SortNewestFirstDescending | main.py:279 | the sorted list has every post no newer than the one before |
| Page.SortNewestFirstPosts | main.py:279 | the sorted list is a permutation of the input |
| Page.SortNewestFirstSorted | main.py:279 | the sorted list is a permutation of the input, ordered newest first |
| Page.SortNewestFirstStable | main.py:279 | posts with equal dates keep their input order |
| Page.NewestFirstDeterminedByDates | main.py:279 | two newest-first lists with the same posts of each date, in the same order, are equal |
| Page.SortNewestFirstUnique | main.py:279 | every stable newest-first ordering of the posts, Python's included, equals the modelled sort |
| Page.ShiftOlder | main.py:279 | the posts of the sorted prefix dated before the new post move one place to the right, and the scan stops at a post no older than it |
| Page.InsertLast | main.py:279 | the prefix grows by the next post, inserted by date; the rest of the array is untouched |
| Page.SortPostsInPlace | main.py:279 | the array is sorted in place, newest first and stable |
| Page.DateText | main.py:283-289 | the formatted local date, or `Unknown date` when formatting raises `ValueError` or `TypeError` |
| Page.BlockOf | main.py:291-306 | one post's block: id, title, `audio/` followed by the audio file name, text, date text and link |
| Page.Blocks | main.py:281-306 | one block per post, in order, with the post's id, title, `audio/` source, text, date text and link |
| Page.GenerateHtml | main.py:275-309 | an empty list gives the notice and no block; otherwise the list is sorted in place and rendered one block per post in sorted order; the footer carries the generation time |
| History.SetOf | main.py:54 | `set(ids)` holds exactly the listed ids and is no larger than the list |
| History.LoadProcessed | main.py:49-58 | the loaded set holds exactly the decoded ids; a missing, unreadable or undecodable file gives the empty set |

## Left out

- `connect_to_reddit` (main.py:97-117) and the praw session: network access. The listing is an input sequence instead.
- `subreddit.hot(limit=10)`: the ranking comes from the server. The model takes the first 10 entries of the input. An exception is modelled only as one raised while iterating the listing at a given index. Exceptions raised by attribute access on a submission are not modelled.
- gTTS and `tts.save` (main.py:84-85): a foreign library doing network I/O. They are an oracle of per-attempt outcomes. In the model a failed attempt leaves no file behind. A partial MP3 written by a failing `save` is not modelled.
- `Path(AUDIO_DIR).mkdir` (main.py:78) runs outside the `try` of `generate_tts` (main.py:83). A `FileExistsError` or `PermissionError` it raises therefore reaches main.py:173 and ends the loop. It happens after the filter and before any synthesizer call for that submission, so the result is the one `failAt` gives at that submission's index (`Pipeline.ExceptionKeepsPrefix`). The model has no separate parameter for it. When it succeeds it only creates the directory.
- `os.path.exists` (main.py:150) is membership in the set of existing paths. Other processes changing the directory are not modelled.
- History.LoadProcessed: JSON decoding is abstracted to "undecodable" or "a list of ids", and `Undecodable` stands for `json.JSONDecodeError` only. Three errors escape the `except (json.JSONDecodeError, IOError)` of main.py:55 and are not modelled. A file that is not valid text in the locale's encoding makes `json.load` raise `UnicodeDecodeError`. A file that decodes to a number, a boolean or `null` makes `set()` raise `TypeError`. So does a list holding an unhashable element such as a list or an object. A file that decodes to a string, an object or a list of non-strings loads without error, into a set of characters, of keys or of other values, which the model does not represent.
- `save_processed_posts` (main.py:61-67): a file write whose outcome nothing in the program reads.
- Page.GenerateHtml: states the page's structure (the notice or the blocks, and the footer time), not its HTML text. The CSS and template text (main.py:183-273, 291-317) are not modelled. Titles and bodies are placed in the page unescaped, and the model makes no claim about escaping.
- Writing `index.html` and the `True`/`False` result (main.py:319-326): file I/O.
- Date formatting (main.py:286-289) depends on the local time zone. It is the `formatDate` parameter. `None` stands for the `ValueError`/`TypeError` the source catches. Other exceptions from `datetime.fromtimestamp` are not caught by the source and are not modelled.
- `datetime.now()` (main.py:309) is the wall clock. It is the `now` parameter.
- `created_utc` is a float in praw. It is an integer sort key here.
- Python's `list.sort` is Timsort. The model sorts by insertion. `Page.SortNewestFirstUnique` shows that any stable newest-first order of the same list gives the same result.
- Logging (main.py:28-33 and throughout): it only writes messages.
- `main` (main.py:329-357): it only sequences the calls above and sets the exit code.
