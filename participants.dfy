/**
  The record the server keeps per socket in a room and sends, in room order,
  in every `room-update` snapshot: `{ userName, vote, isSpectator }`.
  The client names the same shape `Vote`.
 */
module Participants {
  import opened Wrappers

  /** `vote` is `None` where JavaScript holds `null`. */
  datatype Participant = Participant(userName: string, vote: Option<string>, isSpectator: bool)
}
