/**
 * scripts/fetch-comments.js: turning the comment threads of a video into comment
 * records, and the deterministic avatar colour of a user id.
 */
module FetchComments {
  import opened Js
  import Hashing

  /**
   * The fields of one `commentThreads.list` item that the script reads (all from
   * `snippet.topLevelComment.snippet`, except `id`). `authorChannelId` is the
   * optional chain `authorChannelId?.value`: None when the object or its value is
   * missing.
   */
  datatype CommentThreadItem = CommentThreadItem(
    id: string,
    authorChannelId: Option<string>,
    authorDisplayName: string,
    textDisplay: string,
    publishedAt: string,
    authorProfileImageUrl: string)

  /** One fetched comment. */
  datatype Comment = Comment(
    commentId: string,
    userId: string,
    username: string,
    content: string,
    publishedAt: string,
    avatarUrl: string)

  /** `authorChannelId?.value || ""` */
  function AuthorId(item: CommentThreadItem): string
  {
    if item.authorChannelId.Some? && item.authorChannelId.value != "" then item.authorChannelId.value
    else ""
  }

  function ToComment(item: CommentThreadItem): Comment
  {
    Comment(item.id, AuthorId(item), item.authorDisplayName, item.textDisplay,
            item.publishedAt, item.authorProfileImageUrl)
  }

  /**
   * `response.data.items.map(...)`: one comment per item, in the order of the
   * items, the user id being the author's channel id or "" when it is missing.
   */
  function FetchedComments(items: seq<CommentThreadItem>): (comments: seq<Comment>)
    ensures |comments| == |items|
    ensures forall i :: 0 <= i < |items| ==>
      && comments[i].commentId == items[i].id
      && comments[i].userId == (if items[i].authorChannelId.Some? then items[i].authorChannelId.value else "")
      && comments[i].username == items[i].authorDisplayName
      && comments[i].content == items[i].textDisplay
      && comments[i].publishedAt == items[i].publishedAt
      && comments[i].avatarUrl == items[i].authorProfileImageUrl
  {
    seq(|items|, i requires 0 <= i < |items| => ToComment(items[i]))
  }

  /** The fifteen avatar colours of `generateAvatarColor`, in order. */
  const AvatarPalette: seq<string> := [
    "#FF6B6B", "#4ECDC4", "#45B7D1", "#96E6A1", "#DDA0DD",
    "#F7DC6F", "#BB8FCE", "#85C1E9", "#F8B500", "#58D68D",
    "#EC7063", "#5DADE2", "#AF7AC5", "#48C9B0", "#F4D03F"
  ]

  /** The colour `generateAvatarColor(userId)` returns. */
  function AvatarColor(userId: string): (color: string)
    ensures color in AvatarPalette
  {
    AvatarPalette[Hashing.SelectIndex(Hashing.UnwrappedHash(Utf16(userId)), |AvatarPalette|)]
  }

  /** The empty id (a comment without a channel id) hashes to 0 and gets the first colour. */
  lemma EmptyIdColor()
    ensures AvatarColor("") == "#FF6B6B"
  {
    assert Utf16("") == [];
    assert Hashing.UnwrappedHash([]) == 0;
    assert Hashing.SelectIndex(0, |AvatarPalette|) == 0;
  }

  /** `generateAvatarColor`: the hash loop over the UTF-16 code units of the id. */
  method GenerateAvatarColor(userId: string) returns (color: string)
    ensures color == AvatarColor(userId)
    ensures color in AvatarPalette
  {
    var units := Utf16(userId);
    var hash := 0;
    var i := 0;
    while i < |units|
      invariant 0 <= i <= |units|
      invariant hash == Hashing.UnwrappedHash(units[..i])
    {
      Hashing.UnwrappedHashStep(units, i);
      hash := units[i] + (ShiftLeft5(hash) - hash);
      i := i + 1;
    }
    assert units[..|units|] == units;
    color := AvatarPalette[Abs(hash) % |AvatarPalette|];
  }
}
