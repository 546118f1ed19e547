/**
 * The search-tweets view model: the state the screen observes, the dispatch
 * of a query (minting a bearer token first when none is cached), the
 * callbacks that record the outcome of the network chain, and the in-memory
 * sort of the displayed tweets.
 *
 * The network, the connectivity probe and the reactive pipeline are not
 * modelled: the probe's answer is a parameter, and each asynchronous outcome
 * is an event method the pipeline would call. What the view model asks of
 * its collaborators is recorded in the ghost trace `calls`.
 */
module SearchTweets {
  import opened Wrappers
  import opened Constants
  import opened TweetModel
  import opened TweetSort

  /** What the view model asks of its collaborators, in order. */
  datatype Call =
    | ReadToken                    // repository.getAccessToken()
    | ProbeConnectivity            // AppUtil.isDeviceOnline
    | RequestToken                 // repository.generateAccessToken()
    | StoreToken(token: string)    // repository.setAccessToken(token)
    | RequestSearch(query: string) // repository.mostRecentTweets(query)

  /** The stage of the chain the view model last subscribed to. */
  datatype Chain =
    | AwaitingToken(query: string)   // token request issued; search chained behind it
    | AwaitingTweets(query: string)  // search request issued

  class SearchTweetsViewModel {
    /** The bearer token the repository caches (`getAccessToken()`). */
    var accessToken: Option<string>
    var loading: bool
    var filter: bool
    var dialogState: Option<DialogState>
    var apiResult: Option<ApiResult>
    var apiError: Option<string>
    /** The tweets the last successful search returned. */
    var tweetsLiveData: Option<seq<Tweet>>
    /** The tweets on display, which `SortTweets` reorders. */
    var tweetsObservable: seq<Tweet>
    /** The chain held by `disposable`. */
    var chain: Option<Chain>
    /** Everything asked of the repository and the probe so far: every read
        of the cached token, probe, request and store, in order. */
    ghost var calls: seq<Call>

    /** No empty query ever reaches the network. */
    ghost predicate Valid()
      reads this
    {
      && (forall i :: 0 <= i < |calls| && calls[i].RequestSearch? ==> calls[i].query != "")
      && (chain.Some? ==> chain.value.query != "")
    }

    /** `repository.getAccessToken().isNullOrEmpty()` */
    predicate NeedsToken()
      reads this
    {
      IsNullOrEmpty(accessToken)
    }

    constructor (cachedToken: Option<string>)
      ensures Valid()
      ensures accessToken == cachedToken
      ensures !loading && !filter
      ensures dialogState == None && apiResult == None && apiError == None
      ensures tweetsLiveData == None && tweetsObservable == []
      ensures chain == None && calls == []
    {
      accessToken := cachedToken;
      loading, filter := false, false;
      dialogState, apiResult, apiError := None, None, None;
      tweetsLiveData, tweetsObservable := None, [];
      chain, calls := None, [];
    }

    /** Replaces the displayed tweets, but only with a non-empty list. */
    method SetTweetsObservable(tweets: Option<seq<Tweet>>)
      requires Valid()
      modifies this`tweetsObservable
      ensures Valid()
      ensures IsNullOrEmpty(tweets) ==> tweetsObservable == old(tweetsObservable)
      ensures !IsNullOrEmpty(tweets) ==>
                |tweetsObservable| == |tweets.value| &&
                forall i :: 0 <= i < |tweets.value| ==> tweetsObservable[i] == tweets.value[i]
    {
      if tweets.Some? && tweets.value != [] {
        tweetsObservable := [];
        tweetsObservable := tweetsObservable + tweets.value;
      }
    }

    method SetLoading(state: bool)
      requires Valid()
      modifies this`loading
      ensures Valid()
      ensures loading == state
    {
      loading := state;
    }

    /** Opens the sort menu; nothing else changes. */
    method OnFilterButtonClicked()
      requires Valid()
      modifies this`dialogState
      ensures Valid()
      ensures dialogState == Some(SortTweetsDialog)
    {
      dialogState := Some(SortTweetsDialog);
    }

    /** Submits a query. `online` is what the connectivity probe would answer;
        it is consulted only when no token is cached. */
    method GetMostRecentTweets(query: Option<string>, online: bool)
      requires Valid()
      modifies this`dialogState, this`loading, this`chain, this`calls
      ensures Valid()
      // a null or empty query is rejected: nothing is asked of the network
      ensures IsNullOrEmpty(query) ==>
                && dialogState == Some(QueryEmptyErrorDialog)
                && loading == old(loading) && chain == old(chain) && calls == old(calls)
      // no cached token and offline: the token is read and only the probe is asked
      ensures !IsNullOrEmpty(query) && old(NeedsToken()) && !online ==>
                && dialogState == Some(DeviceOfflineDialog)
                && loading == old(loading) && chain == old(chain)
                && calls == old(calls) + [ReadToken, ProbeConnectivity]
      // no cached token and online: a token is requested, the search chained behind it
      ensures !IsNullOrEmpty(query) && old(NeedsToken()) && online ==>
                && dialogState == old(dialogState) && loading
                && chain == Some(AwaitingToken(query.value))
                && calls == old(calls) + [ReadToken, ProbeConnectivity, RequestToken]
      // a cached token: straight to the search, without consulting the probe
      ensures !IsNullOrEmpty(query) && !old(NeedsToken()) ==>
                && dialogState == old(dialogState) && loading
                && chain == Some(AwaitingTweets(query.value))
                && calls == old(calls) + [ReadToken, RequestSearch(query.value)]
    {
      if query.None? || query.value == [] {
        dialogState := Some(QueryEmptyErrorDialog);
      } else {
        calls := calls + [ReadToken];
        if NeedsToken() {
          GenerateAccessToken(query.value, online);
        } else {
          SearchMostRecentTweets(query.value);
        }
      }
    }

    /** Requests a token when online, with the search chained behind it. */
    method GenerateAccessToken(query: string, online: bool)
      requires Valid() && query != ""
      modifies this`dialogState, this`loading, this`chain, this`calls
      ensures Valid()
      ensures !online ==>
                && dialogState == Some(DeviceOfflineDialog)
                && loading == old(loading) && chain == old(chain)
                && calls == old(calls) + [ProbeConnectivity]
      ensures online ==>
                && dialogState == old(dialogState) && loading
                && chain == Some(AwaitingToken(query))
                && calls == old(calls) + [ProbeConnectivity, RequestToken]
    {
      calls := calls + [ProbeConnectivity];
      if online {
        SetLoading(true);
        calls := calls + [RequestToken];
        chain := Some(AwaitingToken(query));
      } else {
        dialogState := Some(DeviceOfflineDialog);
      }
    }

    /** The chained step run when the token arrives: store it, then search for
        the query the chain was started with. */
    method OnAccessTokenGenerated(token: string)
      requires Valid() && chain.Some? && chain.value.AwaitingToken?
      modifies this`accessToken, this`chain, this`calls
      ensures Valid()
      ensures accessToken == Some(token)
      ensures chain == Some(AwaitingTweets(old(chain).value.query))
      ensures calls == old(calls) + [StoreToken(token), RequestSearch(old(chain).value.query)]
    {
      var query := chain.value.query;
      accessToken := Some(token);
      calls := calls + [StoreToken(token)];
      calls := calls + [RequestSearch(query)];
      chain := Some(AwaitingTweets(query));
    }

    /** Issues the search with the cached token. */
    method SearchMostRecentTweets(query: string)
      requires Valid() && query != ""
      modifies this`loading, this`chain, this`calls
      ensures Valid()
      ensures loading
      ensures chain == Some(AwaitingTweets(query))
      ensures calls == old(calls) + [RequestSearch(query)]
    {
      SetLoading(true);
      calls := calls + [RequestSearch(query)];
      chain := Some(AwaitingTweets(query));
    }

    /** The chain delivered tweets (`onSuccess`, identical in both chains). */
    method OnSuccess(tweets: Option<seq<Tweet>>)
      requires Valid()
      modifies this`loading, this`apiResult, this`tweetsLiveData, this`filter
      ensures Valid()
      ensures !loading && apiResult == Some(ApiResult.OnSuccess)
      ensures tweetsLiveData == tweets && filter
    {
      SetLoading(false);
      apiResult := Some(ApiResult.OnSuccess);
      tweetsLiveData := tweets;
      filter := true;
    }

    /** The chain failed (`onFailure`, identical in both chains); the fetched
        tweets are kept as they were. */
    method OnFailure(error: string)
      requires Valid()
      modifies this`loading, this`apiResult, this`apiError, this`filter
      ensures Valid()
      ensures !loading && apiResult == Some(ApiResult.OnFailure)
      ensures apiError == Some(error) && !filter
    {
      SetLoading(false);
      apiResult := Some(ApiResult.OnFailure);
      apiError := Some(error);
      filter := false;
    }

    /** The chain completed (`onCompleted`, identical in both chains). */
    method OnCompleted()
      requires Valid()
      modifies this`loading, this`apiResult, this`filter
      ensures Valid()
      ensures !loading && apiResult == Some(ApiResult.OnCompleted) && filter
    {
      SetLoading(false);
      apiResult := Some(ApiResult.OnCompleted);
      filter := true;
    }

    /** Sorts the displayed tweets in place, ascending, if any tweets were
        fetched. The new order is `Sort` of the old one, which `SortPermutes`,
        `SortOrdered` and `SortStable` show to be a stable ascending permutation. */
    method SortTweets(sortBy: Option<string>)
      requires Valid()
      modifies this`dialogState, this`filter, this`tweetsObservable
      ensures Valid()
      ensures IsNullOrEmpty(old(tweetsLiveData)) ==>
                && dialogState == Some(NoTweetsToFilterDialog) && !filter
                && tweetsObservable == old(tweetsObservable)
      ensures !IsNullOrEmpty(old(tweetsLiveData)) ==>
                && dialogState == old(dialogState) && filter
                && tweetsObservable == Sort(OrderFor(sortBy), old(tweetsObservable))
    {
      if IsNullOrEmpty(tweetsLiveData) {
        dialogState := Some(NoTweetsToFilterDialog);
        filter := false;
      } else {
        filter := true;
        var order := OrderFor(sortBy);
        var s := tweetsObservable;
        var a := new Tweet[|s|](i requires 0 <= i < |s| => s[i]);
        assert a[..] == s;
        SortInPlace(a, order);
        tweetsObservable := a[..];
      }
    }
  }

  /** First query of a session: no token cached, device online, token and
      search both succeed, then the chain completes. */
  method FirstQueryScenario(query: string, token: string, result: seq<Tweet>)
    returns (tweets: Option<seq<Tweet>>, filter: bool, loading: bool,
             apiResult: Option<ApiResult>, ghost calls: seq<Call>)
    requires query != ""
    ensures tweets == Some(result) && filter && !loading
    ensures apiResult == Some(ApiResult.OnCompleted)
    ensures calls == [ReadToken, ProbeConnectivity, RequestToken, StoreToken(token), RequestSearch(query)]
  {
    var vm := new SearchTweetsViewModel(None);
    vm.GetMostRecentTweets(Some(query), true);
    vm.OnAccessTokenGenerated(token);
    vm.OnSuccess(Some(result));
    vm.OnCompleted();
    tweets, filter, loading, apiResult, calls := vm.tweetsLiveData, vm.filter, vm.loading, vm.apiResult, vm.calls;
  }

  /** The token request of a first query fails: the error is reported, no
      search is issued and no tweets appear. */
  method TokenFailureScenario(query: string, error: string)
    returns (tweets: Option<seq<Tweet>>, filter: bool, apiResult: Option<ApiResult>,
             apiError: Option<string>, ghost calls: seq<Call>)
    requires query != ""
    ensures tweets == None && !filter
    ensures apiResult == Some(ApiResult.OnFailure) && apiError == Some(error)
    ensures forall i :: 0 <= i < |calls| ==> !calls[i].RequestSearch?
  {
    var vm := new SearchTweetsViewModel(None);
    vm.GetMostRecentTweets(Some(query), true);
    vm.OnFailure(error);
    tweets, filter, apiResult, apiError, calls := vm.tweetsLiveData, vm.filter, vm.apiResult, vm.apiError, vm.calls;
  }
}
