# Blog post service: a Dafny model

This project models the core of a small Spring blog service. The service has
five HTTP endpoints over one `Post` table:

- `POST /posts` creates a post.
- `GET /posts/{id}` reads one post.
- `GET /posts?page=&size=` lists one page of posts, newest first.
- `PATCH /posts/{id}` edits a post.
- `DELETE /posts/{id}` deletes a post.

A create request passes two checks before anything is stored. First come the
declarative not-blank checks on `title` and `content`. Then the hand-written
rule: a title may not contain "바보". Every failure reaches one controller
advice, which renders the uniform error envelope `{code, message, validation}`.

Everything is modelled with immutable datatypes and pure functions:

- The table is `map<int, Post>`, plus a counter that stands in for the
  identity column (`Repository.Store`).
- Java `null` is `Option.None`.
- Thrown exceptions are `Result.Failure` values.
- Java `int` and `long` are the subset types `Int32` and `Int64`. The offset
  computation writes its `int` subtraction and `long` multiplication out
  with explicit wrap-around, and proves that no wrap happens.

Modules follow the source files:

| Module | Models |
|---|---|
| `Numerics` | Java integers and `String.valueOf` |
| `Paging` | `PostSearch` |
| `Domain` | `Post` |
| `PostResponses` | `PostResponse` |
| `ErrorResponses` | `ErrorResponse` |
| `Exceptions` | `GlobalException`, `InvalidRequest`, `PostNotFound` |
| `Text` | `String.contains` |
| `Requests` | `PostCreate`, `PostEdit`, and the validator's field errors |
| `Repository` | the table, `save`/`saveAll`/`findById`/`deleteById`, and the QueryDSL `getList` |
| `Service` | `PostService` |
| `ExceptionController` | the controller advice |
| `PostController` | the mapped endpoints |
| `Scenarios` | the paging example of the service tests |

The list query gets two independent statements:

- **As the query.** The page is `Window(AllNewestFirst(s), Offset(search),
  size)`: order by id descending, skip the offset, take `size`.
- **Without the query.** The `i`-th post returned is the stored post that has
  exactly `Offset(search) + i` newer posts in the table (`RankedFrom`,
  `Service.ListedFrom`). From that alone, `Service.ListedDescending` derives
  that ids fall strictly.

## Behaviour worth knowing

- **Message of a rejected title.** `InvalidRequest` carries a class-level
  `@Getter` (`src/main/java/study/hodolmanblogstudy/exception/InvalidRequest.java:11`).
  Lombok therefore generates a `getMessage()` for the class's own `message`
  field (`:17`), and it overrides `Throwable.getMessage()`. That field is
  never assigned, because the assignments at `:25-26` are commented out. The
  envelope's `message` for a rejected title is therefore null.
  `Exceptions.GetMessage`, `Exceptions.MessageOfWellFormed` and
  `PostController.ForbiddenTitleReply` state this. The value passed to
  `super` is kept in `superMessage`.
- **Page size cap.** `size` is capped at 2000 only in the offset
  (`PostSearch.java:21`). The `limit` is the raw size
  (`PostRepositoryImpl.java:22`). So with page 1 and size 5000, a table of
  5000 posts returns all 5000.
- **When the title rule runs.** `@Valid` rejects the request before the body
  of `postV4` runs. So `validate()` only ever sees a request that passed the
  field checks. `PostController.Create` orders the two checks this way.

## Model

| member | source | states |
|---|---|---|
| Numerics.WrapInt | src/main/java/study/hodolmanblogstudy/request/PostSearch.java:21 | Java `int` arithmetic: a result already in range is unchanged, and any result is congruent to the true value modulo 2^32 |
| Numerics.WrapLong | src/main/java/study/hodolmanblogstudy/request/PostSearch.java:21 | Java `long` arithmetic: identity in range, congruent modulo 2^64 |
| Numerics.DecimalString | src/main/java/study/hodolmanblogstudy/controller/ExceptionController.java:54 | `String.valueOf` of a non-negative int is a non-empty digit string with no leading zero |
| Numerics.ParseDecimalString | src/main/java/study/hodolmanblogstudy/controller/ExceptionController.java:54 | reading the rendered status code back gives the status: the rendering round-trips |
| Numerics.DecimalStringInjective | src/main/java/study/hodolmanblogstudy/controller/ExceptionController.java:54 | two different statuses never render as the same code |
| Paging.Offset | src/main/java/study/hodolmanblogstudy/request/PostSearch.java:9-22 | page ≤ 1 gives offset 0; for page ≥ 1 and 0 ≤ size ≤ 2000 the offset is (page−1)·size; a size above 2000 counts as 2000; a non-negative size gives a non-negative offset |
| Paging.OffsetNoOverflow | src/main/java/study/hodolmanblogstudy/request/PostSearch.java:21 | for every 32-bit page and size, `max(1,page)−1` fits an `int` and the product fits a `long` |
| Paging.OffsetCapsSize | src/main/java/study/hodolmanblogstudy/request/PostSearch.java:9-21 | any size above `MAX_SIZE` gives the same offset as `MAX_SIZE` itself |
| Paging.OffsetMonotonic | src/main/java/study/hodolmanblogstudy/request/PostSearch.java:21 | for a fixed non-negative size, a later page never has a smaller offset |
| Domain.NewPost | src/main/java/study/hodolmanblogstudy/domain/Post.java:14-27 | the builder stores title and content exactly, and the id stays null until a save |
| Domain.ChangePost | src/main/java/study/hodolmanblogstudy/domain/Post.java:29-32 | both fields take the arguments unconditionally, null included; the id never changes |
| Domain.ChangePostIdempotent | src/main/java/study/hodolmanblogstudy/domain/Post.java:29-32 | applying the same change twice equals applying it once |
| ErrorResponses.Build | src/main/java/study/hodolmanblogstudy/resposne/ErrorResponse.java:38-43 | code and message as given; a null validation map becomes empty, a non-null one is kept as given |
| ErrorResponses.AddValidation | src/main/java/study/hodolmanblogstudy/resposne/ErrorResponse.java:45-47 | puts one key, last write wins; other keys and the code and message are unchanged |
| PostResponses.FromPost | src/main/java/study/hodolmanblogstudy/resposne/PostResponse.java:17-21 | the projection copies the post's id, title and content |
| PostResponses.FromPosts | src/main/java/study/hodolmanblogstudy/service/PostService.java:81-83 | mapping `PostResponse::new` keeps the length and projects each post in place |
| PostResponses.BuilderAgreesWithProjection | src/main/java/study/hodolmanblogstudy/resposne/PostResponse.java:13-28 | the builder fed a post's three getters equals the projecting constructor |
| PostResponses.FromPostInjective | src/main/java/study/hodolmanblogstudy/resposne/PostResponse.java:17-21 | the projection loses nothing: equal projections come from equal posts |
| Exceptions.Status | src/main/java/study/hodolmanblogstudy/exception/InvalidRequest.java:34-37 | 400 exactly for `InvalidRequest`, 404 exactly for `PostNotFound`; the abstract base has no instance of its own |
| Exceptions.GetMessage | src/main/java/study/hodolmanblogstudy/exception/InvalidRequest.java:11-17 | `PostNotFound` answers the message it passed to `super`; `InvalidRequest` answers its own (Lombok-generated) `message` field instead |
| Exceptions.AddValidation | src/main/java/study/hodolmanblogstudy/exception/GlobalException.java:29-31 | puts one field, last write wins; every other field of the exception (super message, cause, and `InvalidRequest`'s `fieldName` and `message`) is unchanged, so status and message are too |
| Exceptions.NewInvalidRequest | src/main/java/study/hodolmanblogstudy/exception/InvalidRequest.java:19-21 | status 400, empty validation map, no cause, super message "잘못된 요청입니다." |
| Exceptions.InvalidRequestFor | src/main/java/study/hodolmanblogstudy/exception/InvalidRequest.java:23-28 | validation is exactly {fieldName ↦ message}; the like-named fields stay null |
| Exceptions.InvalidRequestCausedBy | src/main/java/study/hodolmanblogstudy/exception/InvalidRequest.java:30-32 | status 400, empty validation map, the given cause |
| Exceptions.NewPostNotFound | src/main/java/study/hodolmanblogstudy/exception/PostNotFound.java:6-22 | status 404, message "존재하지 않는 글입니다.", empty validation map |
| Exceptions.PostNotFoundCausedBy | src/main/java/study/hodolmanblogstudy/exception/PostNotFound.java:14-16 | same status, message and empty map as the no-argument form; only the cause differs |
| Exceptions.AddValidationWellFormed | src/main/java/study/hodolmanblogstudy/exception/GlobalException.java:17-31 | adding a field error keeps the fixed super message and the never-assigned fields |
| Exceptions.MessageOfWellFormed | src/main/java/study/hodolmanblogstudy/exception/InvalidRequest.java:11-27 | `getMessage()` of a `PostNotFound` is its fixed text; of an `InvalidRequest` it is null although `super` got "잘못된 요청입니다." |
| Text.IndexOfFrom | src/main/java/study/hodolmanblogstudy/request/PostCreate.java:39 | `indexOf(sub, from)` is the first occurrence at or after `from`, or −1 when there is none |
| Text.IndexOf | src/main/java/study/hodolmanblogstudy/request/PostCreate.java:39 | `indexOf` returns −1 exactly when the substring occurs nowhere; otherwise the first occurrence |
| Text.Contains | src/main/java/study/hodolmanblogstudy/request/PostCreate.java:39 | `contains` holds exactly when the substring occurs somewhere |
| Text.ContainsInContext | src/main/java/study/hodolmanblogstudy/request/PostCreate.java:39 | any text around the forbidden word still contains it |
| Requests.IsBlank | src/main/java/study/hodolmanblogstudy/request/PostCreate.java:16-20 | null and the empty string are blank; a non-null string is blank exactly when every character is in the whitespace set, so `"     "` is blank and any string with another character is not |
| Requests.FieldErrors | src/main/java/study/hodolmanblogstudy/request/PostCreate.java:16-20 | a title error exactly when the title is null or blank, and a content error likewise; both when both fail; nothing else; at most one per field |
| Requests.Validate | src/main/java/study/hodolmanblogstudy/request/PostCreate.java:38-42 | rejects exactly the titles containing "바보", with an `InvalidRequest` whose validation is {title ↦ "제목에 바보를 포함할 수 없습니다."} |
| Requests.ValidateIgnoresContent | src/main/java/study/hodolmanblogstudy/request/PostCreate.java:38-42 | the verdict does not depend on the content |
| Requests.NotBlankIsNonNull | src/main/java/study/hodolmanblogstudy/request/PostCreate.java:16-20 | a request without field errors has a non-null title, so `validate()` is safe after the field checks |
| ExceptionController.AddFieldErrors | src/main/java/study/hodolmanblogstudy/controller/ExceptionController.java:36-38 | every field error lands in the map; for a repeated field the last message wins; earlier entries of other fields are kept |
| ExceptionController.InvalidRequestHandler | src/main/java/study/hodolmanblogstudy/controller/ExceptionController.java:24-40 | 400, code "400", message "잘못된 요청입니다.", keys exactly the failing fields, each with its last message |
| ExceptionController.GlobalExceptionHandler | src/main/java/study/hodolmanblogstudy/controller/ExceptionController.java:49-78 | HTTP status is `getStatus()`; the code is exactly `String.valueOf` of that status, all digits, and parses back to it; message is `getMessage()`; validation is the exception's map |
| ExceptionController.Handle | src/main/java/study/hodolmanblogstudy/controller/ExceptionController.java:24-50 | a field-check failure goes to the validation handler, a `GlobalException` to its own handler |
| ExceptionController.StatusCodes | src/main/java/study/hodolmanblogstudy/controller/ExceptionController.java:51-56 | the envelope code is literally "400" for `InvalidRequest` and "404" for `PostNotFound` |
| Repository.Save | src/main/java/study/hodolmanblogstudy/domain/Post.java:14-16 | a save adds exactly one row, under a fresh id above every earlier id, and the table grows by one |
| Repository.SaveAll | src/test/java/study/hodolmanblogstudy/service/PostServiceTest.java:119-126 | `saveAll` saves in list order under consecutive ids from the counter on, keeping every earlier row |
| Repository.SaveAllIdsFreshAscending | src/test/java/study/hodolmanblogstudy/service/PostServiceTest.java:119-126 | the ids `saveAll` hands out rise in saving order and are above every earlier id |
| Repository.FindById | src/main/java/study/hodolmanblogstudy/service/PostService.java:45-46 | present exactly when the id is stored, and then it is the stored post carrying that id |
| Repository.Update | src/main/java/study/hodolmanblogstudy/service/PostService.java:107-109 | flushing a changed entity rewrites its row only; keys and counter unchanged |
| Repository.DeleteById | src/main/java/study/hodolmanblogstudy/service/PostService.java:118 | removes exactly that key; all other rows unchanged |
| Repository.IdsDescending | src/main/java/study/hodolmanblogstudy/repository/PostRepositoryImpl.java:24 | `order by id desc` lists every id of the table and nothing else |
| Repository.IdsDescendingSorted | src/main/java/study/hodolmanblogstudy/repository/PostRepositoryImpl.java:24 | that enumeration falls strictly, so no id appears twice |
| Repository.DescendingUnique | src/main/java/study/hodolmanblogstudy/repository/PostRepositoryImpl.java:24 | a set of ids has only one strictly descending enumeration |
| Repository.IdsDescendingOfAscending | src/main/java/study/hodolmanblogstudy/repository/PostRepositoryImpl.java:24 | ids issued in rising order come back exactly reversed |
| Repository.PositionIsRank | src/main/java/study/hodolmanblogstudy/repository/PostRepositoryImpl.java:24 | in the descending enumeration, position `j` holds the id with exactly `j` larger ids |
| Repository.NewerThanAntitone | src/main/java/study/hodolmanblogstudy/repository/PostRepositoryImpl.java:24 | a larger id has no more newer posts than a smaller one |
| Repository.AllNewestFirst | src/main/java/study/hodolmanblogstudy/repository/PostRepositoryImpl.java:20-24 | the `order by id desc` listing has one row per stored post |
| Repository.AllNewestFirstOrdered | src/main/java/study/hodolmanblogstudy/repository/PostRepositoryImpl.java:20-25 | the full `order by id desc` listing holds every stored post, each under its own id, ids strictly falling, with exactly `i` newer posts before position `i` |
| Repository.ListingNewestFirst | src/main/java/study/hodolmanblogstudy/repository/PostRepositoryImpl.java:24 | posts read by strictly falling stored ids are newest first and each is the stored row for its id |
| Repository.ListingComplete | src/main/java/study/hodolmanblogstudy/repository/PostRepositoryImpl.java:21 | a listing that names every stored id leaves no stored post out |
| Repository.ListingRanked | src/main/java/study/hodolmanblogstudy/repository/PostRepositoryImpl.java:24 | the post at position `i` of the full listing has exactly `i` newer posts |
| Repository.Window | src/main/java/study/hodolmanblogstudy/repository/PostRepositoryImpl.java:22-23 | `offset(o).limit(l)` yields min(l, max(0, n−o)) rows, row `i` being row `o+i` of the input |
| Repository.WindowNewestFirst | src/main/java/study/hodolmanblogstudy/repository/PostRepositoryImpl.java:22-24 | a window of a newest-first listing is newest first, its ranks shifted by the offset |
| Repository.GetList | src/main/java/study/hodolmanblogstudy/repository/PostRepositoryImpl.java:19-25 | at most the raw `size` rows, exactly min(size, max(0, n − offset)); empty when the offset reaches past the table |
| Repository.GetListOrdered | src/main/java/study/hodolmanblogstudy/repository/PostRepositoryImpl.java:19-25 | the page holds stored posts under their own ids, strictly newest first, row `i` having exactly `offset + i` newer posts |
| Service.Write | src/main/java/study/hodolmanblogstudy/service/PostService.java:29-38 | adds exactly one post with the request's title and content under a fresh id, which it returns; the id is drawn from the identity counter, which moves past it, so it is never handed out again; the table grows by one |
| Service.Get | src/main/java/study/hodolmanblogstudy/service/PostService.java:41-58 | `PostNotFound` exactly when the id is absent; otherwise the stored id, title and content; the store is untouched |
| Service.GetList | src/main/java/study/hodolmanblogstudy/service/PostService.java:80-84 | as many responses as the repository's page has rows |
| Service.GetListRanked | src/main/java/study/hodolmanblogstudy/service/PostService.java:80-84 | response `i` projects the stored post with exactly `offset + i` newer posts, and ids fall strictly |
| Service.ListedDescending | src/main/java/study/hodolmanblogstudy/service/PostService.java:80-84 | responses listed by rising rank carry strictly falling ids |
| Service.Merge | src/main/java/study/hodolmanblogstudy/service/PostService.java:107-109 | a non-null incoming value replaces the current one; null keeps it |
| Service.Edit | src/main/java/study/hodolmanblogstudy/service/PostService.java:86-110 | `PostNotFound` exactly for an absent id; otherwise only the target row changes, field by field per the merge; keys and other rows unchanged |
| Service.Delete | src/main/java/study/hodolmanblogstudy/service/PostService.java:112-119 | `PostNotFound` exactly for an absent id; otherwise removes exactly that id, keeps the other rows and leaves the identity counter where it was, so the deleted id is not reissued |
| Service.WriteThenGet | src/main/java/study/hodolmanblogstudy/service/PostService.java:29-58 | reading the id `write` returned gives back exactly the title and content written |
| Service.DeleteThenGet | src/test/java/study/hodolmanblogstudy/service/PostServiceTest.java:203-218 | after a delete, reading or deleting the same id again is `PostNotFound` |
| Service.EditKeepsNullField | src/test/java/study/hodolmanblogstudy/service/PostServiceTest.java:180-200 | an edit with a null title and a new content keeps the title and replaces the content |
| PostController.Create | src/main/java/study/hodolmanblogstudy/controller/PostController.java:108-127 | field errors first, then `validate()`, then `write`; any failure leaves the store unchanged; success exactly when both checks pass, storing exactly the request under the returned fresh id, the store and id being those the service's write produces |
| PostController.Get | src/main/java/study/hodolmanblogstudy/controller/PostController.java:132-139 | the path id reaches the service unchanged: `PostNotFound` exactly for an absent id, else the stored post's projection |
| PostController.GetList | src/main/java/study/hodolmanblogstudy/controller/PostController.java:155-158 | exactly min(size, max(0, n − offset)) responses, ranked from the offset, ids strictly falling |
| PostController.Edit | src/main/java/study/hodolmanblogstudy/controller/PostController.java:163-166 | `PostNotFound` exactly for an absent id, with the store unchanged; on success the store is the one the service's edit produces |
| PostController.Delete | src/main/java/study/hodolmanblogstudy/controller/PostController.java:171-174 | `PostNotFound` exactly for an absent id, with the store unchanged; on success exactly that id is gone and the store is the one the service's delete produces |
| PostController.BlankFieldReply | src/test/java/study/hodolmanblogstudy/controller/PostControllerTest.java:89-105 | a blank title or content yields 400, code "400", "잘못된 요청입니다.", and an entry exactly for each blank field; nothing stored |
| PostController.ForbiddenTitleReply | src/test/java/study/hodolmanblogstudy/controller/PostControllerTest.java:315-336 | a title containing "바보" yields 400 with {title ↦ "제목에 바보를 포함할 수 없습니다."}, a null message, and nothing stored |
| PostController.MissingIdReply | src/test/java/study/hodolmanblogstudy/controller/PostControllerTest.java:297-313 | reading, editing or deleting an absent id gives the same 404 envelope, with code "404", the not-found message and no field entries |
| PostController.EditAcceptsAnyTitle | src/main/java/study/hodolmanblogstudy/controller/PostController.java:163-166 | edit stores any title, including blank ones and ones with the forbidden word |
| PostController.CreateThenGet | src/test/java/study/hodolmanblogstudy/controller/PostControllerTest.java:107-128 | after a successful create, reading the returned id gives back what was sent |
| Scenarios.SeedPosts | src/test/java/study/hodolmanblogstudy/service/PostServiceTest.java:119-124 | the seed is `n` unsaved posts titled "제목 - i" with content "내용 - i", for i = 1 … n |
| Scenarios.ConsecutiveIdsDescending | src/main/java/study/hodolmanblogstudy/repository/PostRepositoryImpl.java:24 | the ids base … base+n−1 in `order by id desc` are base+n−1 down to base |
| Scenarios.ConsecutiveListing | src/main/java/study/hodolmanblogstudy/repository/PostRepositoryImpl.java:24 | a table filled under consecutive ids lists its posts in reverse saving order |
| Scenarios.SeededNewestFirst | src/test/java/study/hodolmanblogstudy/service/PostServiceTest.java:119-126 | after `saveAll` into an empty table, the whole table newest first is the seed reversed, each post with its id |
| Scenarios.PageOfTable | src/main/java/study/hodolmanblogstudy/service/PostService.java:80-84 | a service page is the matching window of the whole table newest first, projected |
| Scenarios.FirstPageIsNewest | src/test/java/study/hodolmanblogstudy/service/PostServiceTest.java:115-144 | page 1 of a freshly seeded table holds the last `size` saved posts, most recent first, each with the id it was saved under |
| Scenarios.SeededFirstPage | src/test/java/study/hodolmanblogstudy/service/PostServiceTest.java:115-144 | for a numbered seed of `n`, page 1 holds min(size, n) rows: "제목 - n", "제목 - n−1", … with their contents and the ids they were saved under (`NumberedPage`) |
| Scenarios.ThirtyPostsFirstPage | src/test/java/study/hodolmanblogstudy/service/PostServiceTest.java:115-144 | thirty posts, page 1, size 5: exactly five responses, "제목 - 30" down to "제목 - 26", with contents and ids |

## Left out

- HTTP routing, JSON (de)serialisation, Spring wiring and logging are left out. The model starts where a request body has become a value and ends at the envelope value.
- JPA, QueryDSL and `@Transactional` are replaced by the map store. There is no concurrency, isolation or partial failure.
- `PostRepository` and `PostRepositoryCustom` are bare interfaces over the framework. Their contract is the `Repository` module.
- The unmapped `postV1`, `postV2` and `postV3`, the commented-out `getList` variants and the `PostEditor` paths are dead code.
- The catch-all handler is declared on `Exception.class` but takes a `MethodArgumentNotValidException`. Only the field-validation failure reaches it in the model. How the framework would treat any other exception there is framework dispatch.
- `PostSearch` values with a null `page` or `size` are not modelled. The only constructor overwrites the field defaults, so `getOffset` would fail on unboxing; `Paging.PostSearch` holds two plain `int`s.
- Repository.GetList: requires `size >= 0`. The query library rejects a negative limit with its own exception before any row is read, and that exception is not part of this model.
- Service.GetList: requires `size >= 0`, for the same reason. Its own contract states only the page length; the contents and the order are stated by `Service.GetListRanked`.
- PostController.GetList: requires `size >= 0`, for the same reason.
- Repository.Save: hands out the counter's value, so ids are consecutive. The identity column only promises fresh, rising ids. The service and controller proofs rely only on that. The paging scenarios (`Scenarios.SeededRange`, `Scenarios.FirstPageIsNewest`, `Scenarios.SeededFirstPage`, `Scenarios.ThirtyPostsFirstPage`) state ids as the counter plus the position, so they rely on consecutive ids. The 64-bit `Long` id overflow is not modelled, since ids are unbounded integers.
- Requests.FieldErrors: lists the title error before the content error. The bean validator fixes no order. The keys differ, so the envelope map is the same either way.
- Repository.AllNewestFirst: its own contract states only the length. The order, completeness and ranks are stated by `Repository.AllNewestFirstOrdered`.
- Text.IndexOfFrom: indices count Unicode code points, not Java's UTF-16 code units, so a title holding characters outside the Basic Multilingual Plane gets different positions. Only whether the result is −1 feeds `contains`, and that does not depend on the unit. The start index is at most the length, the only way the model calls it.
- Requests.IsBlank: takes the whitespace set as a parameter instead of fixing the Unicode whitespace classes behind `@NotBlank`.
- Exceptions.Cause stands for a chained `Throwable` and records only a description. Stack traces and causes never reach the envelope.
