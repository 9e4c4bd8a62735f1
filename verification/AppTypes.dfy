/** The records the bot passes around. */
module AppTypes {

  /** One leaderboard row as the bot reads it from a query result: the
      Farcaster id and the current username (`User`; the optional
      follower count is never read by the bot and is not modelled). */
  datatype Row = Row(fid: int, username: string)

  /** A detected rename: the username held from yesterday and the one
      found today at the same position (`UsernameHistory`). */
  datatype UsernameHistory = UsernameHistory(prevUsername: string, newUsername: string)

  /** The identifier the publishing service returns for a published cast. */
  type Hash = string
}
