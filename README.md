# outline-backup, modelled in Dafny

outline-backup is a command-line tool that backs up an Outline knowledge
base. One run does the following:

- It reads the connection settings (server, HTTPS flag, API key, poll
  timeout, destination location).
- It asks the server to export every collection (`collections.export_all`).
- It stops if the server's answer carries one of five known error statuses.
- It polls the export job (`fileOperations.info`) once per iteration until
  the job reports `complete` or the poll counter reaches the timeout.
- It downloads the archive (`fileOperations.redirect`) into
  `outline-backup.zip`. A short body that is the object store's
  `InvalidRequest` error leads to a fallback: the path inside that error's
  `<Resource>` element is appended to the server, and the archive is
  fetched from there with a plain GET.
- It renames or copies the archive to `outline-backup-<time>.zip`.
- It asks the server to delete the export (`fileOperations.delete`).

The model follows `main`, `build_post_request`, the scheme step of
`get_config` and `move_backup` in `src/main.rs`, and `validate_response` in
`src/error.rs`. The server's answers, the file system's answers and the
clock are inputs. A run is computed by a specification function,
`Backup.Outcome`. The imperative method `Backup.RunBackup` follows `main`
statement by statement and is proved to compute that same run. Every
property of the whole run is a lemma about `Outcome`.

Modules:

- `Base`: `Option` and the byte type.
- `Text`: Rust's `str::find`, `str::contains`, `str::split` and
  `Iterator::nth`. `str::find` returns a byte index and `Text.Find` a
  character index. The difference is invisible here: the program uses
  `find` only through `contains` and `split`, and its patterns are ASCII.
- `Utf8`: UTF-8 decoding as `String::from_utf8` does it, following Table
  3-7 of the Unicode Standard, and the matching encoder.
- `Json`: serde_json values: indexing (a missing key gives `null`),
  `as_str` and the compact `to_string` rendering.
- `ErrorCheck`: `validate_response`.
- `Api`: the configuration, the scheme prefix and `build_post_request`.
- `Poller`: the poll loop as a method, together with its specification
  function.
- `Fetch`: what is done with the redirect body: the 900-byte threshold and
  the `<Resource>` extraction.
- `Store`: the placement decision of `move_backup`.
- `Backup`: `main` as a whole.

Only the export response is classified (src/main.rs:34-37). Poll, redirect
and delete responses are not. A poll response without a `data.state` string
panics at its `unwrap` (src/main.rs:60-62), and the comment at
src/main.rs:49 notes that a rate-limit error during polling goes unseen.

## Model

| member | source | states |
|---|---|---|
| ErrorCheck.ValidateResponse | src/error.rs:1-30 | The process ends only when the status text is exactly one of the numerals 401, 403, 404, 429 or 500, and then with exit code 1. It first prints `Error: <error>` and then the message for that code. Any other status text lets the run continue. |
| ErrorCheck.ValidateRendered | src/main.rs:34-37 | Applied to the serde rendering of a JSON value, the classifier fires exactly when the value is the number 401, 403, 404, 429 or 500. A string "401" or a missing field (`null`) passes. |
| Json.RenderNumeral | src/main.rs:35 | The only JSON value whose compact rendering is the numeral of `n` is the number `n`. |
| Json.GetMember | src/main.rs:40-42 | `Json.Get` (`value[key]`) on an object yields the value of the first member named `key`, and `null` when no member has that name. On any other value it yields `null`. |
| Api.ApplyScheme | src/main.rs:186-190 | Only the server changes. It becomes `https://` or `http://`, chosen by the secure flag, followed by the configured server, and both can be read back from it. |
| Api.ApplySchemeInjective | src/main.rs:186-190 | Two configurations that differ in scheme flag or server never end up with the same server URL. |
| Api.PostRequest | src/main.rs:139-146 | The request is a POST to `<server>/api/<apicall>`. It has exactly three headers: JSON content type, JSON accept, and `authorization: Bearer <apikey>`. It has no body yet. |
| Api.BuildPostRequest | src/main.rs:139-146 | Adding the three headers one after another yields exactly `PostRequest`, so the request has the properties above. |
| Poller.PollJob | src/main.rs:51-68 | The loop ends in the result of the specification `PollSpec` and sends the info request exactly `Sent()` times. |
| Poller.PollSpecSound | src/main.rs:51-68 | At most `timeout` requests are sent. The loop stops before `timeout` only at the first poll that reads "complete", when every earlier poll was read and pending. Reaching `timeout`, every earlier poll was pending. A panic happens exactly at the first unreadable poll. |
| Poller.ProceedsIffEarlyComplete | src/main.rs:51-73 | The timeout check is passed exactly when the first "complete" is at poll index `i` with `i + 1 < timeout`, and `timer` is then `i + 1`. A "complete" at poll number `timeout` still times out. |
| Poller.NeverCompleteTimesOut | src/main.rs:51-73 | If none of the first `timeout` polls reads "complete", the run times out. |
| Text.Find | src/main.rs:88 | The result is the leftmost occurrence of the pattern, or none when the pattern does not occur. |
| Text.SplitJoin | src/main.rs:95-101 | `Text.Split` (`str::split`, collected) loses nothing: rejoining the pieces with the pattern gives back the text. |
| Text.SplitPiecesFree | src/main.rs:95-101 | No piece of a split contains the pattern. |
| Text.FirstPiece | src/main.rs:99-100 | The first piece is a prefix of the text that is free of the pattern. It ends at the end of the text or where the pattern occurs. |
| Utf8.Encode | src/main.rs:87 | The encoding of a text is at least as long as the text and at most four times as long. |
| Utf8.DecodeEncode | src/main.rs:87 | Decoding the UTF-8 encoding of any text gives back that text. |
| Utf8.EncodeDecode | src/main.rs:87 | Whatever bytes `Utf8.Decode` (`String::from_utf8`) accepts are exactly the encoding of the decoded text: the decoder accepts only well-formed UTF-8. |
| Fetch.ClassifyRedirect | src/main.rs:84-126 | A body of 900 bytes or more is the archive, byte for byte. A shorter body that is not UTF-8 panics. Every other case is decided by the marker and `<Resource>` rules below. |
| Fetch.ExtractResourceSound | src/main.rs:95-101 | `Fetch.ExtractResource` (split at `<Resource>`, take piece 1 with `Text.Nth`, split that at `</Resource>`, take piece 0) fails exactly when the text has no `<Resource>`. Otherwise it yields the text right after the first `<Resource>`, up to the next `</Resource>` or `<Resource>` or the end, and the result contains neither tag. |
| Fetch.ExtractBetweenTags | src/main.rs:95-101 | The result is exactly the content of the first `<Resource>` element, provided nothing before it opens another and the content holds neither tag. |
| Fetch.FallbackUrl | src/main.rs:85-102 | For a short, well-formed `InvalidRequest` error body whose `<Resource>` holds `path`, the program GETs `server + path`. |
| Fetch.ShortWithoutMarker | src/main.rs:85-120 | A short text body without the marker writes no archive, sends no GET and does not end the run. |
| Fetch.MarkerWithoutResource | src/main.rs:88-98 | A short body with the marker but without `<Resource>` panics. |
| Fetch.ExampleFallback | src/main.rs:95-102 | Worked case: the error body naming `/minio/path/x`, received from `https://wiki.example.com`, leads to a GET of `https://wiki.example.com/minio/path/x`. |
| Store.MoveBackup | src/main.rs:195-228 | The source is always `outline-backup.zip`. A missing location means a rename to `outline-backup-<time>.zip` in the working directory. An existing location means the target is that name joined onto the location, copied and then removed exactly when the location is absolute, renamed otherwise. |
| Store.JoinPathFileName | src/main.rs:214-227 | `Store.JoinPath` (Unix `Path::join` of a relative name) of a name without `/` onto a location yields a path whose last component is that name. |
| Store.BackupFileName | src/main.rs:195-228 | In every branch the file the backup ends up in is named `outline-backup-<time>.zip`. |
| Backup.RunBackup | src/main.rs:21-137 | Executing `main` step by step yields exactly the run the specification function `Backup.Outcome` gives: the requests, the archive, the placement and the ending. |
| Backup.JobIdReused | src/main.rs:40-133 | The first request is always the export call. The job id is `Backup.JobId`, the string at `data.fileOperation.id`. Without one nothing else is sent. With one, every later POST is one of the four operation calls and carries `Backup.IdBody(id)`, the compact rendering of `{"id": id}`, and every GET is bare, without headers or body. |
| Backup.VerdictNumericStatus | src/main.rs:34-37 | The classifier rejects the export response exactly when its `status` field is the number 401, 403, 404, 429 or 500. |
| Backup.ClassifiedAtExportOnly | src/main.rs:34-37 | The run ends in a classified exit exactly when the export response is rejected. The exit is then the classifier's, only the export call was sent, and nothing is written or moved. |
| Backup.PollsBounded | src/main.rs:51-68 | Each poll's state is read by `Poller.States` from `data.state` (src/main.rs:57-63). After the export call come one info call per poll, with the job id body, and at most `timeout` of them. An unreadable poll response ends the run right there with a panic. |
| Backup.TimeoutEndsRun | src/main.rs:70-73 | The run ends with "Timeout exceeded" exactly when there is a job id and the loop stops with `timer >= timeout`. Nothing is then sent after the polls, and nothing is written or moved. |
| Backup.ProceedsIffCompleteInTime | src/main.rs:51-73 | The run reaches the redirect call exactly when there is a job id and the first "complete" arrives at a poll index `i` with `i + 1 < timeout`. |
| Backup.RedirectFollowsPolls | src/main.rs:75-82 | The redirect call comes right after the last poll. An unreadable redirect response panics with nothing written. |
| Backup.RedirectOutcomes | src/main.rs:84-126 | A long body becomes the archive and no GET is sent. The fallback GET comes right after the redirect call and its body becomes the archive; the file is created empty first. A short body without the marker writes nothing and then panics unless an older archive is present. A body that is not UTF-8, or has the marker but no `<Resource>`, panics. |
| Backup.MoveThenDelete | src/main.rs:128-136 | The move happens exactly when the fetch did not panic and `outline-backup.zip` exists; it is the move `MoveBackup` decides. The delete call with the job id is then the last request. The run finishes exactly when the delete response is read as well. |
| Backup.ExitStatus | src/main.rs:21-137 | The exit code is 0 exactly when the run finishes. It is 1 for a classified failure or a timeout, and 101 for a panic. |

## Left out

- Network transport, async execution and the HTTP client are not modelled. Every server answer is an input. An answer that cannot be sent, read or parsed is `None`, and the program's `unwrap` turns that into a panic.
- Poll responses beyond those given in the input are treated as unreadable, so a finite input describes every run.
- Printing is not modelled, including the pretty-printed export response, the poll responses, the state and "Timeout exceeded". The one exception is the two lines the classifier prints before it exits.
- The one-second sleep between polls is not modelled; it has no effect on the run's result.
- Backup.Outcome: every file operation is taken to succeed, except that `move_backup` panics when there is no `outline-backup.zip` to move. The failures not modelled are these: `File::create` or `io::copy` failing (src/main.rs:105, 117, 123, 125), and `rename`, `copy` or `remove_file` failing (src/main.rs:204-208, 215-220, 222-226), for instance when the location is a regular file or is not writable. In those runs the program panics with exit code 101, where Backup.MoveThenDelete and Backup.ExitStatus describe a finished run with exit code 0.
- The file system's effects are not modelled: creating and writing `outline-backup.zip`, renaming, copying and removing. The model records what is written and which move is made. The file system's answers are inputs: whether the location exists, whether it is absolute, and whether an older `outline-backup.zip` is already present.
- The clock is not modelled. The formatted time is an input. `move_backup` reads the clock a second time when the location exists; the input stands for whichever reading names the file.
- Most of `get_config` is not modelled: locating, creating and parsing `config.toml`, and the interactive `create_settings_file` prompts. Only its scheme-prefix step is part of the model.
- Api.Config: `timeout` is an unbounded `nat` rather than a `u64`; the loop counter never comes near the 64-bit limit.
- Windows paths are not modelled. `Path::join`, `exists` and `is_absolute` follow Unix rules.
- Json.Render: floating-point numbers are not modelled, and the order of an object's keys is the order given.
- Header names are compared as written, without HTTP's case-insensitive normalisation.
- Utf8.Decode reports only success or failure, not the position of the error that `from_utf8` gives; the program only unwraps the result.
