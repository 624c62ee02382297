/**
 * Record shapes of the application tables of the social app (users, posts,
 * likes, comments, follows, messages), the error kinds its mutations throw,
 * and the small wrappers every other module uses.
 */
module Schema {

  /** A document id. The store issues ids from one counter, so a larger id was
      created later: an id also stands for the document's `_creationTime`. */
  type Id = nat

  /** A reference to a blob in file storage (`v.id("_storage")`). */
  type BlobId = nat

  /** An optional field or argument: `None` is JavaScript's `undefined`. */
  datatype Option<T> = None | Some(value: T)

  /** A user profile with its three cached counters (an unset counter reads as zero). */
  datatype User = User(
    name: Option<string>,
    username: Option<string>,
    email: Option<string>,
    phone: Option<string>,
    bio: Option<string>,
    dateOfBirth: Option<string>,
    website: Option<string>,
    location: Option<string>,
    avatar: Option<BlobId>,
    isVerified: Option<bool>,
    followersCount: Option<nat>,
    followingCount: Option<nat>,
    postsCount: Option<nat>)

  datatype Post = Post(
    authorId: Id,
    imageId: BlobId,
    caption: Option<string>,
    likesCount: Option<nat>,
    commentsCount: Option<nat>,
    isPublic: Option<bool>)

  datatype Like = Like(postId: Id, userId: Id)

  /** `likesCount` of a comment is written once, as 0, and never changed. */
  datatype Comment = Comment(postId: Id, authorId: Id, content: string, likesCount: Option<nat>)

  datatype Follow = Follow(followerId: Id, followingId: Id)

  datatype Message = Message(senderId: Id, receiverId: Id, content: string, isRead: Option<bool>)

  /** One constructor per error a handler throws. `MissingDocument` is the
      platform's own failure when `db.patch` names a document that does not
      exist; `NotUnique` is its failure when `.unique()` finds more than one row. */
  datatype Error =
    | NotAuthenticated       // "Not authenticated"
    | NotAuthorized          // "Not authorized"
    | CannotFollowYourself   // "Cannot follow yourself"
    | PostNotFound           // "Post not found"
    | UserNotFound           // "User not found"
    | CommentNotFound        // "Comment not found"
    | MessageNotFound        // "Message not found"
    | MissingDocument
    | NotUnique

  /** The outcome of a mutation: its return value, or the error it threw. */
  datatype Result<T> = Ok(value: T) | Err(error: Error)
}
