/**
 * The records the subscription core reads and produces: blog posts as listed by the creator
 * API (attachments as ids), content posts as fetched one by one (attachments as objects),
 * the per-channel settings, and the record handed to `Video.getOrCreate`.
 * Dates are milliseconds since the epoch.
 */
module Content {
  import opened Options

  /** The part of a fetched video attachment the core reads. */
  datatype VideoContent = VideoContent(id: string, title: string)

  /** A post of the creator listing; `videoAttachments` etc. hold attachment ids. */
  datatype BlogPost = BlogPost(
    id: string,
    title: string,
    text: string,
    channel: string,
    releaseDate: int,
    attachmentOrder: seq<string>,
    videoAttachments: Option<seq<string>>,
    audioAttachments: Option<seq<string>>,
    pictureAttachments: Option<seq<string>>,
    thumbnail: Option<string>)

  /** An attachment object of a content post; only its id is carried over. */
  datatype Attachment = Attachment(id: string, title: string)

  /** A post fetched by id; its attachment lists hold objects. */
  datatype ContentPost = ContentPost(
    id: string,
    title: string,
    text: string,
    channel: string,
    releaseDate: int,
    attachmentOrder: seq<string>,
    videoAttachments: Option<seq<Attachment>>,
    audioAttachments: Option<seq<Attachment>>,
    pictureAttachments: Option<seq<Attachment>>,
    thumbnail: Option<string>)

  /** One entry of a subscription's channel list. */
  datatype Channel = Channel(
    title: string,
    isChannel: Option<string>,
    skip: bool,
    daysToKeepVideos: Option<int>)

  /** The arguments of `Video.getOrCreate`: one downloadable video. */
  datatype Video = Video(
    attachmentId: string,
    description: string,
    artworkUrl: Option<string>,
    channelTitle: string,
    videoTitle: string,
    releaseDate: int)

  /** `list === undefined ? undefined : list.map((att) => att.id)` */
  function AttachmentIds(list: Option<seq<Attachment>>): (ids: Option<seq<string>>)
    ensures ids.Some? <==> list.Some?
    ensures list.Some? ==>
              |ids.value| == |list.value| && forall i :: 0 <= i < |list.value| ==> ids.value[i] == list.value[i].id
  {
    match list
    case None => None
    case Some(atts) => Some(Ids(atts))
  }

  function Ids(atts: seq<Attachment>): (ids: seq<string>)
    ensures |ids| == |atts| && forall i :: 0 <= i < |atts| ==> ids[i] == atts[i].id
  {
    if atts == [] then [] else [atts[0].id] + Ids(atts[1..])
  }

  /** The conversion `seekAndDestroy` makes before matching: same post, attachments as ids. */
  function ToBlogPost(post: ContentPost): (r: BlogPost)
    ensures r.id == post.id && r.title == post.title && r.text == post.text && r.channel == post.channel
    ensures r.releaseDate == post.releaseDate && r.attachmentOrder == post.attachmentOrder
    ensures r.thumbnail == post.thumbnail
    ensures r.videoAttachments == AttachmentIds(post.videoAttachments)
    ensures r.audioAttachments == AttachmentIds(post.audioAttachments)
    ensures r.pictureAttachments == AttachmentIds(post.pictureAttachments)
  {
    BlogPost(post.id, post.title, post.text, post.channel, post.releaseDate, post.attachmentOrder,
      AttachmentIds(post.videoAttachments), AttachmentIds(post.audioAttachments),
      AttachmentIds(post.pictureAttachments), post.thumbnail)
  }
}
