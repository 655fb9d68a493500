/** The immutable descriptor of one source post (src/tootbridge/Tweet.py). */
module Tweets {
  /** A frozen record: two tweets with the same fields are the same value. */
  datatype Tweet = Tweet(text: string, sourceUrl: string, tweetId: int)
}
