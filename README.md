# Search tweets: a verified model of the view model

This project models `SearchTweetsViewModel`, the one piece of logic in the
search-tweets Android app. The model covers:

- the observable state the screen reads: the loading and filter flags, the
  last dialog, the last API result and error, the fetched tweets
  (`tweetsLiveData`) and the displayed tweets (`tweetsObservable`);
- the dispatch of a query. An empty query is rejected. When no bearer token is
  cached, the device must be online and a token is requested first, with the
  search chained behind it. With a cached token the search goes out at once;
- the `onSuccess`, `onFailure` and `onCompleted` callbacks;
- `setTweetsObservable`, `setLoading` and `onFilterButtonClicked`;
- the in-memory, ascending, stable sort of the displayed tweets.

Files:

- `wrappers.dfy`: `Option`, for Kotlin's nullable types, and `IsNullOrEmpty`.
- `domain.dfy`: `DialogState`, `ApiResult`, the two sort-key strings, and the `Tweet` record.
- `tweet_sort.dfy`: the sort orders, a functional insertion sort `Sort`, and
  the lemmas about it. These prove that it permutes, orders and is stable, that
  ordered plus stable determines the result, and that sorting twice is the same
  as sorting once. It also holds the in-place array sort proved equal to `Sort`.
- `search_tweets_view_model.dfy`: the class `SearchTweetsViewModel` and two
  end-to-end scenarios.

The network, the connectivity probe and the reactive pipeline are represented
like this:

- `online` is a parameter. It stands for what `AppUtil.isDeviceOnline` would
  answer.
- The token's arrival is the event method `OnAccessTokenGenerated`.
- The chain's outcomes are the event methods `OnSuccess`, `OnFailure` and
  `OnCompleted`.
- The field `chain` is what `disposable` holds, together with its stage.
- The ghost field `calls` records, in order, everything asked of the
  repository and the probe: each read of the cached token, each probe, each
  token or search request and each token store. This is how "no token
  request", "no search" and "the token is stored before the search is issued"
  are stated.

Both network chains install the same three callbacks (lines 91-109 and
119-137). Each callback is therefore one method here.

The class invariant `Valid()` says that no empty query ever reaches the
network. Every method except the constructor requires it and ensures it; the
constructor establishes it.

## Model

| member | source | states |
|---|---|---|
| `TweetSort.OrderFor` | app/src/main/java/com/shrikantbadwaik/searchtweets/view/searchtweets/SearchTweetsViewModel.kt:147-150 | `sort_by_retweets` selects the retweet order and `sort_by_favorites` selects the favourite order. Every other key, null included, selects the lexicographic (retweets, favourites) order. Each case is stated in both directions. |
| `TweetSort.SortPermutes` | app/src/main/java/com/shrikantbadwaik/searchtweets/view/searchtweets/SearchTweetsViewModel.kt:148-150 | The sorted list is a permutation of the input: its multiset is the same. |
| `TweetSort.SortOrdered` | app/src/main/java/com/shrikantbadwaik/searchtweets/view/searchtweets/SearchTweetsViewModel.kt:148-150 | The sorted list is non-decreasing by the selected key. |
| `TweetSort.SortStable` | app/src/main/java/com/shrikantbadwaik/searchtweets/view/searchtweets/SearchTweetsViewModel.kt:148-150 | Stability: for every key value, the tweets with that key appear in the sorted list in the same relative order as in the input. |
| `TweetSort.OrderedSameTiesEqual` | app/src/main/java/com/shrikantbadwaik/searchtweets/view/searchtweets/SearchTweetsViewModel.kt:148-150 | Two lists that are both ordered and have the same tweets per key, in the same order, are equal. |
| `TweetSort.SortUnique` | app/src/main/java/com/shrikantbadwaik/searchtweets/view/searchtweets/SearchTweetsViewModel.kt:148-150 | Any ordered list with the input's ties in the input's order equals `Sort` of the input. So every stable ascending sort, the library's included, gives exactly this model's result. |
| `TweetSort.SortIdempotent` | app/src/main/java/com/shrikantbadwaik/searchtweets/view/searchtweets/SearchTweetsViewModel.kt:145-152 | Sorting a sorted list again, with the same key, gives the same list. |
| `TweetSort.InsertInPlace` | app/src/main/java/com/shrikantbadwaik/searchtweets/view/searchtweets/SearchTweetsViewModel.kt:148-150 | One insertion step in place: the prefix becomes `Insert` of the old prefix and element, and the suffix is untouched. |
| `TweetSort.SortFacts` | app/src/main/java/com/shrikantbadwaik/searchtweets/view/searchtweets/SearchTweetsViewModel.kt:148-150 | Everything the library sort promises, in one statement: the result is a permutation of the input, non-decreasing by the key, and stable. |
| `TweetSort.SortInPlace` | app/src/main/java/com/shrikantbadwaik/searchtweets/view/searchtweets/SearchTweetsViewModel.kt:148-150 | The array is reordered in place to `Sort` of its old contents. By `SortFacts`, the result is a permutation of the old contents, ordered by the key and stable on ties. |
| `SearchTweets.SearchTweetsViewModel.constructor` | app/src/main/java/com/shrikantbadwaik/searchtweets/view/searchtweets/SearchTweetsViewModel.kt:22-32 | Both flags start false, the live data start null and the displayed list starts empty. No chain is in flight, nothing has been asked of the network, and the token is whatever the repository holds. |
| `SearchTweets.SearchTweetsViewModel.SetTweetsObservable` | app/src/main/java/com/shrikantbadwaik/searchtweets/view/searchtweets/SearchTweetsViewModel.kt:47-54 | A null or empty input leaves the displayed list unchanged. A non-empty input makes the displayed list equal to the input, element by element. |
| `SearchTweets.SearchTweetsViewModel.SetLoading` | app/src/main/java/com/shrikantbadwaik/searchtweets/view/searchtweets/SearchTweetsViewModel.kt:58-60 | Sets `loading` to the given state and touches nothing else. |
| `SearchTweets.SearchTweetsViewModel.OnFilterButtonClicked` | app/src/main/java/com/shrikantbadwaik/searchtweets/view/searchtweets/SearchTweetsViewModel.kt:66-68 | Sets the dialog to `SORT_TWEETS_DIALOG` and changes nothing else. |
| `SearchTweets.SearchTweetsViewModel.GetMostRecentTweets` | app/src/main/java/com/shrikantbadwaik/searchtweets/view/searchtweets/SearchTweetsViewModel.kt:70-78 | All four branches are stated, each with the whole new state. A null or empty query sets `QUERY_EMPTY_ERROR_DIALOG` and leaves `loading`, the chain and the call trace unchanged. A non-empty query first reads the cached token. No token and offline: after that read only the probe is asked, `DEVICE_OFFLINE_DIALOG` is set and `loading` is unchanged. No token and online: `loading` is set, the probe is asked, a token is requested, and the chain waits for the token for this query. Cached token: `loading` is set, the token read is followed only by the search for this query, and the probe is not consulted. Every branch keeps the invariant that no empty query reaches the network. |
| `SearchTweets.SearchTweetsViewModel.GenerateAccessToken` | app/src/main/java/com/shrikantbadwaik/searchtweets/view/searchtweets/SearchTweetsViewModel.kt:80-112 | Probes connectivity. Offline, it sets `DEVICE_OFFLINE_DIALOG` and requests nothing. Online, it sets `loading`, requests a token and subscribes a chain that waits for the token. |
| `SearchTweets.SearchTweetsViewModel.OnAccessTokenGenerated` | app/src/main/java/com/shrikantbadwaik/searchtweets/view/searchtweets/SearchTweetsViewModel.kt:84-88 | The new token is stored first. Then the search is issued for the query the chain was started with. |
| `SearchTweets.SearchTweetsViewModel.SearchMostRecentTweets` | app/src/main/java/com/shrikantbadwaik/searchtweets/view/searchtweets/SearchTweetsViewModel.kt:114-117 | Sets `loading`, issues exactly one search for the query, and the chain waits for its tweets. |
| `SearchTweets.SearchTweetsViewModel.OnSuccess` | app/src/main/java/com/shrikantbadwaik/searchtweets/view/searchtweets/SearchTweetsViewModel.kt:91-96 | `loading` becomes false, the result `ON_SUCCESS`, `filter` true, and `tweetsLiveData` exactly the returned tweets. Nothing else changes. Lines 119-124 are identical. |
| `SearchTweets.SearchTweetsViewModel.OnFailure` | app/src/main/java/com/shrikantbadwaik/searchtweets/view/searchtweets/SearchTweetsViewModel.kt:98-103 | `loading` becomes false, the result `ON_FAILURE`, the error the given message, and `filter` false. `tweetsLiveData` is left as it was. Lines 126-131 are identical. |
| `SearchTweets.SearchTweetsViewModel.OnCompleted` | app/src/main/java/com/shrikantbadwaik/searchtweets/view/searchtweets/SearchTweetsViewModel.kt:105-109 | `loading` becomes false, the result `ON_COMPLETED` and `filter` true. Nothing else changes. Lines 133-137 are identical. |
| `SearchTweets.SearchTweetsViewModel.SortTweets` | app/src/main/java/com/shrikantbadwaik/searchtweets/view/searchtweets/SearchTweetsViewModel.kt:141-153 | The emptiness guard reads `tweetsLiveData`. When it is null or empty, the dialog becomes `NO_TWEETS_TO_FILTER_DIALOG`, `filter` becomes false, and the displayed list is untouched. Otherwise `filter` becomes true. The displayed list is then reordered to `Sort` of its old value under the key `OrderFor` selects. By `SortFacts` that is a permutation of it, non-decreasing and stable, and by `SortIdempotent` a second sort with the same key changes nothing. |
| `SearchTweets.FirstQueryScenario` | app/src/main/java/com/shrikantbadwaik/searchtweets/view/searchtweets/SearchTweetsViewModel.kt:70-110 | No token, online, then the token arrives, the search succeeds and the chain completes. The tweets are exactly the search result, `filter` is true and `loading` is false. The calls are exactly: read of the cached token, probe, token request, store token, search for the same query. |
| `SearchTweets.TokenFailureScenario` | app/src/main/java/com/shrikantbadwaik/searchtweets/view/searchtweets/SearchTweetsViewModel.kt:80-103 | No token, online, and the token request fails. The error is reported, `filter` is false, the tweets stay null, and no search is ever issued. |

## Left out

- RxJava scheduling, cancellation and `onCleared` (lines 25, 34-37, 83, 89, 116-117) are not modelled. Completions are sequential event methods.
- The code never disposes the previous chain when it assigns a new one to `disposable` (lines 83 and 116). A newer query therefore does not cancel an older one. A late completion of the older chain would still be applied, because all chains share the same callbacks. The model keeps only the most recent chain, so it does not capture overlapping chains.
- `SearchTweets.SearchTweetsViewModel.SetTweetsObservable`: the input is taken to be a different list from the displayed one. In the code, passing back the list `getTweetsObservable()` returns (line 56) makes `clear()` (line 50) empty the input as well, so `addAll` (line 51) adds nothing and the displayed list ends up empty. The model has no aliasing between the parameter and the field.
- `SearchTweets.SearchTweetsViewModel.OnAccessTokenGenerated`: only models a token that arrives for the most recent chain, because a superseded chain is not represented.
- The callbacks leave `chain` as it is, as the code leaves `disposable`. The model therefore also admits a token arriving after that chain has already failed. The pipeline never does this.
- The getters (`getDialogStateLiveData`, `getApiResultLiveData`, `getApiErrorLiveData`, `getTweetsLiveData`, `getTweetsObservable`, `isLoading`, `isFilter`, lines 39-45, 56, 62-64) only expose fields. Here the fields are read directly.
- `LiveData` and the observable fields' delivery to observers is not modelled; they are plain fields. The dialog and the result are stored in the code as enum `.name` strings and here as the `DialogState` and `ApiResult` values.
- The `Repository` token and search requests, and their HTTP and JSON handling, are abstract. The token and the tweets are event parameters, and an error is a string.
- `CallbackObserverWrapper` is not part of this model. Its mapping from errors to strings and the order in which it invokes its callbacks are not assumed. The scenarios call whichever callbacks they describe.
- `AppUtil.isDeviceOnline` and the Android `Application` context are replaced by the `online` parameter.
- The `Tweet` and `Tweets` classes are not part of this model. A tweet is a record with an id, a text and the two counters that the sort reads.
- The counters are assumed to be non-null Kotlin `Int`s, because the `Tweet` class is not part of this model. The code only compares them, so unbounded integers give the same order. Nullable counters, which `sortBy` and `compareBy` would place first, are not modelled.
- The library sort (`sortBy` / `sortWith` on a Java list, a stable merge sort) is modelled as an insertion sort. `SortUnique` shows that every stable ascending sort yields the same list.
- The remaining constants of the search-tweets app (`DURATION_4000`, `API_ERROR_RESPONSE_KEY`, `BEARER_TOKEN_CREDENTIALS`, `GRANT_TYPE`, `RESULT_TYPE`, `ActivityCallingState`) are not modelled, because the view model does not use them. `API_ERROR_DIALOG` is mirrored, but the view model never sets it.
- The `newsheadlines` constants file belongs to another app and is not modelled.
- The code sorts ascending (lines 148-150); the model has no descending order.
