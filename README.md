# Photogram backend core in Dafny

Photogram is an Express/Mongoose backend for a photo-sharing site. Users register, sign
in with rotating refresh tokens, edit their profile and images, publish posts, comment on
posts, reply to comments, like posts and comments, and subscribe to other users'
channels. This project models the five Mongoose collections and the controllers that read
and write them:

- `users`, `posts`, `comments`, `likes`, `subscriptions` are each a class (`UserTable`,
  `PostTable`, `CommentTable`, `LikeTable`, `SubscriptionTable`) holding the documents in
  insertion order (`rows`) and the next document id (`nextId`). Each class keeps an
  invariant `Valid()`: distinct ids below `nextId`, plus the unique indexes the schema
  declares (username and e-mail for users, the two compound like indexes for likes).
- Every controller that writes is a method that takes the tables it touches and
  `modifies` only the ones it writes. Its postcondition states each error status and the
  exact new rows. Every controller that only reads (an aggregation pipeline) is a
  function over the rows.
- Mongoose's `trim` and `lowercase` setters are modelled as `Text.Normalize`. They apply
  to stored usernames and e-mails and to the filters that look them up.
- `$sort: {createdAt: -1}` is a newest-first sort (`Seqs.SortNewestFirst`) that puts
  documents with equal times in one fixed order.
  `$skip`/`$limit` is `Seqs.Paginate`, and `$lookup` with `$first` is `UserModel.SummaryOf`.
- The Cloudinary helpers are an `AssetHost` class. It records the set of stored public ids
  and the log of destroy and upload calls. The upload response and the success of a
  destroy are parameters.
- The signed-in user's id, which the auth middleware puts on the request, is a `caller`
  parameter. Request parameters that may be missing are `Option`s, and absent body strings
  are `""`.
- Errors are the `ApiError` statuses 400, 401, 403, 404, 409 and 500, plus `Unhandled` for
  exceptions that are not an `ApiError`, such as a duplicate key, a failed schema check or
  a negative `$skip`.

Files: `common.dfy` (ids, `Option`, `Result`, errors), `seqs.dfy` (find, filter, count,
sort, paginate), `text.dfy` (trim, lowercase, substring search, the e-mail pattern),
`asset_store.dfy`, one `*_model.dfy` per schema and one `*_controller.dfy` per controller
file.

## Model

| member | source | states |
|---|---|---|
| Common.Status | src/controllers/practice.controller.js:24-26 | every error except an exception outside `ApiError` carries an HTTP status |
| AssetStore.AssetHost.constructor | src/utils/cloudinary.js:11-15 | a fresh host holds the given assets and has received no calls |
| AssetStore.AssetHost.Upload | src/utils/cloudinary.js:17-30 | an empty path returns nothing and calls nothing; otherwise exactly one upload call is logged, and the asset is stored iff the host answered |
| AssetStore.AssetHost.Delete | src/utils/cloudinary.js:32-40 | an empty public id calls nothing; otherwise one destroy call is logged and the id leaves the store iff the destroy succeeds |
| Seqs.FindIndex | src/controllers/like.controller.js:22-25 | `findOne` yields the first matching document, and nothing iff no document matches |
| Seqs.FilterKey | src/controllers/like.controller.js:92-96 | `$match` on one field keeps exactly the documents with that value, as many as `CountKey` counts |
| Seqs.Filter | src/controllers/post.controller.js:41-51 | `$match` on a condition keeps exactly the documents that meet it, as many as `CountKey` counts |
| Seqs.CountKey | src/controllers/like.controller.js:159-168 | a count of documents with a field value is zero iff none has it |
| Seqs.SortNewestFirst | src/controllers/like.controller.js:97-99 | `$sort: {createdAt: -1}` yields a newest-first permutation of its input |
| Seqs.SortedMatchMembers | src/controllers/post.controller.js:250-260 | matching then sorting keeps exactly the matching documents |
| Seqs.Paginate | src/controllers/like.controller.js:85-105 | `$skip (page-1)*limit` then `$limit limit` fails iff page or limit is below 1, and otherwise returns the window of the input starting at the skip: `limit` elements, or what is left, or none once the skip passes the end |
| Seqs.PageNewestFirst | src/controllers/subscriber.controller.js:94-96 | a page of a newest-first list is newest-first |
| Seqs.PageMembers | src/controllers/subscriber.controller.js:94-96 | every element of a page comes from the paged list |
| Seqs.FilterNewestFirst | src/controllers/post.controller.js:41-51 | a `$match` after the sort keeps the newest-first order |
| Seqs.CountKeySplit | src/controllers/post.controller.js:144-155 | counting by a field equals the sum of counting its two refinements |
| Seqs.FilterMap | src/controllers/like.controller.js:106-114 | a `$lookup` followed by `$unwind` keeps the joined document of every element that joins to one |
| Seqs.FilterMapDefined | src/controllers/subscriber.controller.js:114-140 | the `$lookup`/`$unwind` yields exactly one document per element that joins, in the elements' order |
| Text.TrimEmptyIffBlank | src/controllers/practice.controller.js:24-26 | `field.trim() === ""` holds exactly for strings made only of white space |
| Text.TrimIsInnerRun | src/models/user.model.js:7-14 | trimming drops white space at both ends only, leaving a run that neither starts nor ends with white space |
| Text.NormalizeIdempotent | src/models/user.model.js:7-14 | applying the trim and lowercase setters a second time changes nothing |
| Text.NormalizedIffFixed | src/models/user.model.js:41-47 | a setter result is trimmed and lower case, and a string is in that form iff the setters leave it unchanged |
| Text.ContainsIffOccurs | src/controllers/post.controller.js:41-51 | the substring test used for search holds iff the needle occurs at some position |
| Text.EmptySearchMatches | src/controllers/post.controller.js:41-51 | the empty search matches every field |
| Text.EmailCheckMatchesPattern | src/controllers/practice.controller.js:198-201 | the executable e-mail check agrees with `^[^\s@]+@[^\s@]+\.[^\s@]+$` on every string, in both directions |
| UserModel.PreSaveHash | src/models/user.model.js:66-75 | an unmodified password keeps its hash; after a new password is set, `isPasswordCorrect` accepts exactly that password |
| UserModel.FindUser | src/controllers/practice.controller.js:9-12 | `findById` finds a user with that id, and fails iff none exists |
| UserModel.SummaryOf | src/controllers/post.controller.js:19-40 | the owner `$lookup` with `$first` finds the summary of the user with that id, and nothing iff none exists |
| UserModel.InsertKeepsValid | src/models/user.model.js:7-47 | adding a user in stored form whose username and e-mail are free keeps ids distinct and both unique indexes |
| UserModel.UserTable.constructor | src/models/user.model.js:104 | the collection starts empty |
| UserModel.UserTable.Create | src/controllers/practice.controller.js:33-39 | `User.create` fails on a missing required field or a taken username or e-mail, and otherwise appends the normalised user with a hashed password |
| UserModel.UserTable.Save | src/models/user.model.js:66-70 | `save` replaces one document and keeps the unique indexes |
| PostModel.ParseVisibility | src/models/post.model.js:34-38 | a string is accepted iff it names one of the three visibilities, and parsing inverts naming |
| PostModel.FindPost | src/controllers/like.controller.js:17-20 | `Post.findById` finds the post with that id, and fails iff none exists |
| PostModel.PostTable.constructor | src/models/post.model.js:41 | the collection starts empty |
| PostModel.PostTable.Create | src/controllers/post.controller.js:77-85 | `Post.create` appends the new post with a fresh id |
| PostModel.PostTable.Save | src/controllers/post.controller.js:203-209 | a `findByIdAndUpdate` replaces exactly one post |
| PostModel.PostTable.Delete | src/controllers/post.controller.js:232 | `findByIdAndDelete` removes exactly that post |
| CommentModel.FindComment | src/controllers/comment.controller.js:44-45 | `Comment.findById` finds the comment with that id, and fails iff none exists |
| CommentModel.Matching | src/controllers/comment.controller.js:151-152 | the number of comments a delete filter matches is zero iff none matches |
| CommentModel.Remaining | src/controllers/comment.controller.js:151-152 | a delete keeps exactly the comments its filter does not match, and the sizes add up |
| CommentModel.SubsequenceValid | src/models/comment.model.js:3-28 | any duplicate-free selection of stored comments keeps the collection invariant |
| CommentModel.OneCommentPerId | src/controllers/comment.controller.js:152 | deleting by id removes exactly one comment |
| CommentModel.RemainingKeepsDistinct | src/controllers/comment.controller.js:151-152 | deleting comments never makes two comments share an id |
| CommentModel.CommentTable.constructor | src/models/comment.model.js:30 | the collection starts empty |
| CommentModel.CommentTable.Create | src/models/comment.model.js:15-18 | `Comment.create` fails for empty content, which is required, and otherwise appends the comment with a fresh id |
| CommentModel.CommentTable.SetContent | src/controllers/comment.controller.js:181-185 | an edit changes the content of exactly one comment |
| CommentModel.CommentTable.DeleteReplies | src/controllers/comment.controller.js:151 | `deleteMany({parentComment})` removes exactly the direct replies |
| CommentModel.CommentTable.DeleteById | src/controllers/comment.controller.js:152 | `findByIdAndDelete` removes exactly the comment with that id |
| LikeModel.LikeCount | src/controllers/post.controller.js:128-143 | the number of likes on a target is zero iff no like targets it |
| LikeModel.LikeCountAppend | src/controllers/like.controller.js:34-37 | a new like raises its target's count by one and leaves the other targets' counts alone |
| LikeModel.LikeCountRemoveAt | src/controllers/like.controller.js:27-28 | removing a like lowers its target's count by one and leaves the other targets' counts alone |
| LikeModel.FindLike | src/controllers/like.controller.js:22-25 | finds a user's first like on the target, and nothing iff the user has none |
| LikeModel.RemoveKeepsValid | src/models/like.model.js:28-30 | deleting a like keeps both unique indexes |
| LikeModel.AppendKeepsValid | src/models/like.model.js:28-30 | adding a like whose keys clash with no stored like keeps both unique indexes |
| LikeModel.LikeTable.constructor | src/models/like.model.js:32 | the collection starts empty |
| LikeModel.LikeTable.Create | src/models/like.model.js:28-30 | `Like.create` raises a duplicate-key error iff `(likedBy, post)` or `(likedBy, comment)` is taken, with a missing field indexed as null; otherwise it appends the like |
| LikeModel.LikeTable.DeleteAt | src/controllers/like.controller.js:28 | removes exactly one like |
| SubscriptionModel.FindSubscription | src/controllers/subscriber.controller.js:23-26 | finds a subscription of the pair, and nothing iff none exists |
| SubscriptionModel.SubscriptionTable.constructor | src/models/subscription.model.js:15 | the collection starts empty |
| SubscriptionModel.SubscriptionTable.Create | src/controllers/subscriber.controller.js:37-40 | appends the new subscription with a fresh id |
| SubscriptionModel.SubscriptionTable.DeleteAt | src/controllers/subscriber.controller.js:30 | removes exactly one subscription |
| LikeController.NewLike | src/controllers/like.controller.js:34-37 | a new like belongs to the user, targets the given post or comment, and sets exactly one of the two fields |
| LikeController.ToggleLikeRows | src/controllers/like.controller.js:22-37 | an existing like of the user is removed and nothing else changes; otherwise exactly the new like is appended, unless it clashes with an index, which fails |
| LikeController.ToggleLike | src/controllers/like.controller.js:22-41 | the stored likes become the toggled rows, and the result is null on unlike or the new like |
| LikeController.ToggleLikePost | src/controllers/like.controller.js:9-42 | 400 without a post id, 404 for a missing post, otherwise the toggle on that post |
| LikeController.ToggleCommentLike | src/controllers/like.controller.js:44-80 | 400 without a comment id, 404 for a missing comment, otherwise the toggle on that comment |
| LikeController.AtMostOneLikeOf | src/models/like.model.js:28-30 | under the unique indexes a user holds at most one like per target |
| LikeController.ToggleKeepsValid | src/models/like.model.js:28-30 | a successful toggle keeps both unique indexes and the one-target shape of every like |
| LikeController.LikeThenUnlike | src/controllers/like.controller.js:22-37 | liking and then toggling again restores the exact collection |
| LikeController.UnlikeThenLike | src/controllers/like.controller.js:22-37 | unliking and then liking again restores the same likes, up to their ids and times |
| LikeController.ToggleTwiceRestores | src/controllers/like.controller.js:9-80 | two successful toggles in a row cancel out |
| LikeController.ToggleFlipsLike | src/controllers/like.controller.js:22-37 | a toggle flips whether the user likes the target and moves its like count by one |
| LikeController.SecondPostLikeRejected | src/models/like.model.js:29-30 | a user who likes one post gets a duplicate-key error on liking a second post, because both likes hold a null comment |
| LikeController.SecondCommentLikeRejected | src/models/like.model.js:29-30 | the same holds for a second comment, through the null post |
| LikeController.JoinOne | src/controllers/like.controller.js:106-140 | a like joins to a liked post iff it names a stored post; the joined row carries that post, the like's time and the summary of the post's owner |
| LikeController.JoinLikedPosts | src/controllers/like.controller.js:106-140 | every like in the window with a stored post yields a row |
| LikeController.JoinedRowsComeFromWindow | src/controllers/like.controller.js:106-140 | every joined row comes from a like in the window and a stored post |
| LikeController.JoinKeepsNewestFirst | src/controllers/like.controller.js:97-114 | the post lookup keeps the newest-first order of the likes |
| LikeController.LikesPage | src/controllers/like.controller.js:91-105 | the page of the caller's likes fails iff page or limit is below 1, and otherwise is newest first, holds only the caller's likes, is as long as `PageLength` of the caller's like count, and is element by element the caller's likes sorted newest first from offset `Skip(page, limit)` |
| LikeController.GetUserLikedPost | src/controllers/like.controller.js:82-150 | fails iff page or limit is below 1; otherwise at most `limit` rows, newest first by like time, exactly one per like of the page whose post is stored, in page order, each the joined post with its owner; the page is the `Skip(page, limit)` window of the caller's likes sorted newest first, as `LikesPage` states |
| LikeController.LikedPostsAreLiked | src/controllers/like.controller.js:91-140 | every returned post is stored and is liked by the user |
| LikeController.PagingBeforeJoinDropsRows | src/controllers/like.controller.js:97-114 | paging happens before the post lookup, so a page can come back empty while a later page is not |
| LikeController.CountStage | src/controllers/like.controller.js:165-174 | `$count` yields no document iff nothing matched, and otherwise one document holding the count |
| LikeController.GetCommentLikeCount | src/controllers/like.controller.js:152-179 | 400 without a comment id, otherwise the number of likes on that comment |
| LikeController.GetReplyLikeCount | src/controllers/like.controller.js:181-196 | 400 without a reply id, otherwise a count that is zero iff no like names the reply |
| LikeController.ReplyCountMatchesCommentCount | src/controllers/like.controller.js:152-196 | the two count endpoints agree on every id |
| SubscriptionController.ToggleSubscriptionRows | src/controllers/subscriber.controller.js:22-40 | an existing subscription of the pair is removed, otherwise one is appended; other subscriptions are untouched |
| SubscriptionController.ToggleSubscription | src/controllers/subscriber.controller.js:7-46 | 400 without a channel id, 404 for a missing channel user, otherwise the toggle, returning null or the new subscription |
| SubscriptionController.ToggleKeepsPairsUnique | src/controllers/subscriber.controller.js:22-40 | toggling never stores a pair twice |
| SubscriptionController.SubscribeThenUnsubscribe | src/controllers/subscriber.controller.js:22-40 | subscribing then toggling again restores the exact collection |
| SubscriptionController.UnsubscribeThenSubscribe | src/controllers/subscriber.controller.js:22-40 | unsubscribing then subscribing restores the same pairs |
| SubscriptionController.ToggleTwiceRestores | src/controllers/subscriber.controller.js:7-46 | two toggles in a row restore the same pairs |
| SubscriptionController.SubscriberEntries | src/controllers/subscriber.controller.js:60-93 | one entry per subscription of the channel and no other, as many entries as the channel has subscriptions |
| SubscriptionController.GetChannelSubscribers | src/controllers/subscriber.controller.js:48-102 | 400 without a channel id; with one, fails with the unhandled error iff page or limit is below 1, otherwise entries newest first, as many as `PageLength` of the channel's subscriber count |
| SubscriptionController.ChannelSubscribersPage | src/controllers/subscriber.controller.js:60-97 | the page is the window of the newest-first entries, of `PageLength` size, and each entry is a subscription of the channel |
| SubscriptionController.JoinChannels | src/controllers/subscriber.controller.js:114-140 | every subscription whose channel user exists yields an entry |
| SubscriptionController.JoinedChannelsExist | src/controllers/subscriber.controller.js:114-140 | every entry comes from a subscription and an existing channel user |
| SubscriptionController.GetUserSubscribedChannels | src/controllers/subscriber.controller.js:104-153 | `totalSubscribed` is the number of entries, and the entries are the caller's subscriptions whose channel user exists, one each, in stored order, with that channel's summary and the subscription time |
| SubscriptionController.SubscribedChannelsAreSubscribed | src/controllers/subscriber.controller.js:108-141 | every listed channel is one the caller subscribes to |
| UserController.FindUserUnique | src/models/user.model.js:5-63 | with distinct ids, looking up a stored user's id finds that user |
| UserController.ReplaceKeepsValid | src/models/user.model.js:7-47 | replacing a user with one whose keys are free keeps the invariant |
| UserController.SameKeysKeepValid | src/models/user.model.js:58-70 | a save that keeps username, e-mail and name keeps the invariant |
| UserController.WithRefreshToken | src/controllers/practice.controller.js:14-16 | the user now stores the fresh refresh token and nothing else changes |
| UserController.IssueTokens | src/controllers/practice.controller.js:9-20 | issues an access and a refresh token for the user and stores the refresh token; 500 when the user is missing |
| UserController.FindByUsernameOrEmail | src/controllers/practice.controller.js:62-64 | finds a user holding the normalised username or e-mail, and nothing iff neither is taken |
| UserController.NotBlankNormalizes | src/controllers/practice.controller.js:24-26 | a field that passes the blank check is non-empty after the setters |
| UserController.RegisterUser | src/controllers/practice.controller.js:22-50 | 400 when a field is blank, 409 when the username or e-mail is taken, otherwise exactly the new user is stored and its public view returned |
| UserController.LoginUser | src/controllers/practice.controller.js:52-86 | 400 on a blank field, 404 for an unknown user, 400 on a wrong password, otherwise a session with both tokens and the refresh token stored |
| UserController.LogoutUser | src/controllers/practice.controller.js:88-112 | clears exactly the caller's refresh token |
| UserController.RefreshCheck | src/controllers/practice.controller.js:114-131 | a cookie is accepted only if it is a refresh token equal to the one stored for its user, and otherwise 401 |
| UserController.StoredTokenAccepted | src/controllers/practice.controller.js:114-131 | the token a user currently stores is accepted |
| UserController.RotationRejectsOldToken | src/controllers/practice.controller.js:132-137 | after rotation the new token is accepted and any older one is rejected |
| UserController.LogoutRejectsTokens | src/controllers/practice.controller.js:88-131 | after logout no refresh token of the user is accepted |
| UserController.RefreshAccessToken | src/controllers/practice.controller.js:114-149 | 401 for a rejected cookie, otherwise a fresh token pair with the refresh token rotated |
| UserController.ChangeCurrentPassword | src/controllers/practice.controller.js:151-170 | 400 on a missing field or a wrong old password, 404 for a missing user, otherwise only the password hash changes, to that of the new password |
| UserController.GetCurrentUser | src/controllers/practice.controller.js:172-184 | 404 iff the caller is not stored, otherwise the caller's public view |
| UserController.FindEmailHolder | src/controllers/practice.controller.js:204-210 | finds a user other than the caller holding the e-mail, and nothing iff no other user holds it |
| UserController.FindUsernameHolder | src/controllers/practice.controller.js:213-219 | finds a user other than the caller holding the username, and nothing iff no other user holds it |
| UserController.AccountDetailsCheck | src/controllers/practice.controller.js:186-222 | 400 iff a field is missing, the username is shorter than 3 or the e-mail is malformed; 409 iff otherwise another user holds the e-mail or username; otherwise the caller's position |
| UserController.UpdateDetailsKeepsValid | src/controllers/practice.controller.js:222-228 | the save after a passing check keeps the unique indexes |
| UserController.UpdateAccountDetails | src/controllers/practice.controller.js:186-237 | fails exactly as the check does and otherwise rewrites only the caller's username, name and e-mail |
| UserController.WithImage | src/controllers/practice.controller.js:258-271 | the chosen image becomes the new asset and nothing else changes |
| UserController.ReplaceUserImage | src/controllers/practice.controller.js:239-326 | 404 for a missing user, 400 without a file, otherwise the old image is destroyed before the upload, 500 when the upload fails, and otherwise the image is replaced |
| UserController.UpdateUserAvatar | src/controllers/practice.controller.js:239-280 | the avatar replacement: its error statuses, the call order, the host's stored assets, the new rows and the returned public view |
| UserController.UpdateUserCoverImage | src/controllers/practice.controller.js:282-326 | the cover image replacement: its error statuses, the call order, the host's stored assets, the new rows and the returned public view |
| UserController.DestroyBeforeUpload | src/controllers/practice.controller.js:251-254 | the upload is the last call, and a destroy precedes it iff an old image exists |
| UserController.FindByUsername | src/controllers/practice.controller.js:335-338 | finds the user with that username, and nothing iff none exists |
| UserController.GetUserChannelProfile | src/controllers/practice.controller.js:328-405 | 400 without a username, 404 iff no user has it, otherwise the profile of a user holding that username, with that user's id, email, avatar and cover image, subscribed iff the caller subscribes, with subscriber, subscription and post counts equal to the number of matching subscriptions and posts; the username is compared as given, without the setters |
| UserController.UnsubscribeCounts | src/controllers/practice.controller.js:363-367 | removing the caller's subscription lowers the channel's subscriber count by one and leaves the caller unsubscribed |
| UserController.SubscribeCounts | src/controllers/practice.controller.js:363-367 | adding a subscription raises the channel's subscriber count by one and leaves the caller subscribed |
| UserController.ToggleMovesProfile | src/controllers/subscriber.controller.js:22-40 | a subscription toggle flips `isSubscribed` on the profile, moves the subscriber count by one and leaves the post count alone |
| PostController.WithOwners | src/controllers/post.controller.js:19-40 | the definition of the owner `$lookup` step: each post is paired with its owner's summary, in order; what the join preserves is stated by `WithOwnersFacts` |
| PostController.WithOwnersFacts | src/controllers/post.controller.js:15-40 | the owner lookup keeps newest-first order and keeps every post |
| PostController.Feed | src/controllers/post.controller.js:15-51 | newest first; every post when the search is empty, otherwise exactly one entry per post whose owner name, title or description contains the search |
| PostController.GetAllPosts | src/controllers/post.controller.js:10-62 | fails iff page or limit is below 1, otherwise the window of the feed, newest first, as long as `PageLength` of the feed |
| PostController.PublishPost | src/controllers/post.controller.js:64-93 | 400 without a title, description or file, 500 when the upload fails, otherwise the new post is appended and owned by the caller; the host stores exactly the uploaded asset in addition |
| PostController.PublishCountsForOwner | src/controllers/post.controller.js:77-85 | publishing raises only the publisher's post count, by one |
| PostController.GetPostById | src/controllers/post.controller.js:95-174 | 404 without an id or for a missing post; otherwise the post, its owner's summary, its like and comment counts, and whether the caller likes it |
| PostController.CommentCountIncludesReplies | src/controllers/post.controller.js:144-155 | the comment count adds top-level comments and replies |
| PostController.ReplyRaisesCommentCount | src/controllers/post.controller.js:144-155 | a new reply raises the post's comment count by one |
| PostController.Patch | src/controllers/post.controller.js:186-202 | only the non-empty title and description and the new image are set; every other field is kept |
| PostController.PatchIdempotent | src/controllers/post.controller.js:186-209 | applying the same update twice equals applying it once |
| PostController.UpdatePost | src/controllers/post.controller.js:176-217 | 404 without an id, or with a file for a missing post; a null result without a file for a missing post; 500 when the upload fails; otherwise the patched post; with a file, the old image leaves the host's store when its destroy succeeds and the uploaded one enters it |
| PostController.DeletePost | src/controllers/post.controller.js:219-240 | 404 without an id or for a missing post, 403 for a non-owner, otherwise the image is destroyed (leaving the host's store when the destroy succeeds) and exactly that post removed |
| PostController.DeletedPostIsGone | src/controllers/post.controller.js:232 | after the delete the id is not found and every other post remains |
| PostController.OwnerPosts | src/controllers/post.controller.js:250-260 | exactly the user's posts, newest first |
| PostController.GetUserPosts | src/controllers/post.controller.js:242-279 | 400 without a user id or for an empty page, fails iff page or limit is below 1, otherwise the window of the user's posts newest first, as long as `PageLength` of the user's post count |
| PostController.FirstPageEmptyIffNoPosts | src/controllers/post.controller.js:268-270 | the first page reports "no posts" iff the user owns none |
| CommentController.PostComment | src/controllers/comment.controller.js:9-30 | 404 without a post id, 400 for empty content, 404 for a missing post, otherwise a top-level comment by the caller is appended |
| CommentController.ReplyComment | src/controllers/comment.controller.js:32-59 | 400 without an id or content, 404 for a missing parent, otherwise a reply on the parent's post is appended |
| CommentController.ReplyEntries | src/controllers/comment.controller.js:110-129 | the definition of the author `$lookup` step on replies: each reply is paired with its author's summary, in order; what it preserves is stated by `ReplyEntriesFacts` |
| CommentController.ReplyEntriesFacts | src/controllers/comment.controller.js:101-131 | the entries keep newest-first order and list exactly the direct replies |
| CommentController.RepliesView | src/controllers/comment.controller.js:101-131 | exactly the direct replies of a comment, newest first, each with its author |
| CommentController.ThreadEntries | src/controllers/comment.controller.js:79-131 | the definition of the author and replies `$lookup` steps: each top-level comment is paired with its author and its replies; what they preserve is stated by `ThreadEntriesFacts` |
| CommentController.ThreadEntriesFacts | src/controllers/comment.controller.js:68-133 | the entries keep newest-first order and list exactly the post's top-level comments |
| CommentController.ThreadView | src/controllers/comment.controller.js:68-133 | the post's top-level comments newest first, each with its author and its direct replies |
| CommentController.GetAllComments | src/controllers/comment.controller.js:61-137 | 400 without a post id, 404 iff the post is missing, otherwise the thread view |
| CommentController.GrandRepliesNotListed | src/controllers/comment.controller.js:68-133 | a reply to a reply appears nowhere in the thread view |
| CommentController.DeleteComment | src/controllers/comment.controller.js:139-156 | 400 without an id, 404 for a missing comment, 403 for a non-author, otherwise its direct replies and then the comment are removed |
| CommentController.DeleteRemovesCommentAndReplies | src/controllers/comment.controller.js:151-152 | after the delete, exactly the comment and its direct replies are gone |
| CommentController.DeleteKeepsDeeperReplies | src/controllers/comment.controller.js:151 | replies to those replies stay stored |
| CommentController.EditTarget | src/controllers/comment.controller.js:158-173 | 400 iff the id or content is missing, then 404 iff the comment is missing, otherwise its position |
| CommentController.EditComment | src/controllers/comment.controller.js:158-194 | fails as the target check does, 403 for a non-author, otherwise only that comment's content changes |
| CommentController.EditReply | src/controllers/comment.controller.js:196-233 | as for comments, plus 400 when the target is not a reply |
| CommentController.EditKeepsThreadShape | src/controllers/comment.controller.js:181-185 | an edit keeps every post, parent and thread count |

## Left out

- Routes, the Express app, the database connection and the auth middleware are not part of this model. The caller's id is a parameter.
- `getWatchHistory`, `getUser` and the other empty handlers at the end of `practice.controller.js` do nothing, so nothing is modelled for them.
- bcrypt is an injective tag `Hashed(plain)`, and a JWT is a datatype naming its subject and issue time. Signing secrets and token expiry are left out: a refresh token verifies iff it is a refresh token.
- Search treats the `$regex` search string as a literal substring. Case folding is ASCII only, for both the search and the `lowercase` setter.
- `parseInt` of a non-numeric page or limit gives NaN, which is not modelled; page and limit are integers.
- The query defaults are not modelled: `limit = 10, page = 1` in `getAllPosts` (`post.controller.js:11`), `getUserPosts` (`post.controller.js:243`) and `getUserLikedPost` (`like.controller.js:83`), and `page = 1, limit = 20` in `getChannelSubscribers` (`subscriber.controller.js:50`). `GetAllPosts`, `GetUserPosts`, `GetUserLikedPost` and `GetChannelSubscribers` take page and limit as given, so a request without them is the call with those values.
- Malformed ObjectIds, which make `findById` or `new ObjectId` throw, are not modelled. Ids are numbers, and a missing path or body parameter is `None` or `""`.
- Concurrent requests, and the races between a check and the write that follows it, are not modelled. Each controller runs alone.
- Deleting the local upload file (`fs.unlinkSync`) and the URL of uploaded assets are not modelled.
- Response messages, the `ApiResponse` envelope, cookies and their options are not modelled. Results are the data the handler sends.
- `populate("commentBy")` after creating a comment or reply is left out. The raw comment is returned.
- The `likes` array that `getPostById` leaves in the result is left out. Only its size and whether the caller appears in it are kept.
- Crashing statements are modelled as their evident intent: `ApiResonse` at `post.controller.js:56`, the reassigned `const comment` at `comment.controller.js:26`, `User` used without import at `subscriber.controller.js:17`, the unexported `Subscription` model, and `findOneAndUpdate` given a bare id as its filter at `practice.controller.js:89-90`.
- The 500 after `User.create` in `registerUser` cannot happen, because create returns the document or throws. It is not modelled.
- A request body without `username`, `email` or `password` makes `.trim()` throw a TypeError in `registerUser` (`practice.controller.js:24`) and `loginUser` (`practice.controller.js:54`), an unhandled error. The model reads an absent body field as `""` and answers 400.
- MongoDB's `$sort` does not promise an order among documents with the same `createdAt`. The model fixes one, so what a contract says about positions within a page holds for that order; newest-first order and membership hold for any.
- `username.length` in `updateAccountDetails` counts UTF-16 code units, while the model counts characters (`|s|`). The two differ only for characters outside the Basic Multilingual Plane.
