/** The constants and enumerations of the search-tweets application. */
module Constants {

  /** The dialogs the view model asks the view to show. */
  datatype DialogState =
    | QueryEmptyErrorDialog
    | ApiErrorDialog
    | DeviceOfflineDialog
    | SortTweetsDialog
    | NoTweetsToFilterDialog

  /** The outcome the view model reports for the last network call. */
  datatype ApiResult = OnSuccess | OnFailure | OnCompleted

  /** The two named sort keys the sort menu passes to the view model. */
  const SortByRetweets: string := "sort_by_retweets"
  const SortByFavorites: string := "sort_by_favorites"
}

/** A retrieved tweet: two orderable counters and an opaque payload. */
module TweetModel {

  datatype Tweet = Tweet(id: string, text: string, retweetCount: int, favouriteCount: int)
}
