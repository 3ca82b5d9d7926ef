/** The classification carried through the pipeline and how it is read
    out of a vision model's free-text reply: the reply is upper-cased and
    searched for keywords. */
module Replies {
  import opened Text

  datatype ImageType = Photo | Illustration

  datatype BodyExtent = HeadOnly | HeadNeck | HeadChest | FullBody

  /** What an analysis step reports. */
  datatype Analysis = Analysis(imageType: ImageType, bodyExtent: BodyExtent)

  /** The values stored under "image_type" in a pipeline context. */
  function TypeName(t: ImageType): string {
    match t
    case Photo => "photo"
    case Illustration => "illustration"
  }

  /** The values stored under "body_extent" in a pipeline context. */
  function ExtentName(e: BodyExtent): string {
    match e
    case HeadOnly => "head_only"
    case HeadNeck => "head_neck"
    case HeadChest => "head_chest"
    case FullBody => "full_body"
  }

  /** Reading a name back: the context strings identify the values. */
  lemma NamesAreDistinct(a: BodyExtent, b: BodyExtent, s: ImageType, t: ImageType)
    ensures ExtentName(a) == ExtentName(b) ==> a == b
    ensures TypeName(s) == TypeName(t) ==> s == t
  {
  }

  /** "illustration" exactly when the upper-cased reply mentions
      ILLUSTRATION anywhere; every other reply means a photo. */
  function TypeFromReply(reply: string): (t: ImageType)
    ensures t == Illustration <==> Contains(Upper(reply), "ILLUSTRATION")
  {
    if Contains(Upper(reply), "ILLUSTRATION") then Illustration else Photo
  }

  /** The first keyword found, in the order HEAD_ONLY, HEAD_NECK,
      HEAD_CHEST, decides; a reply with none of them means the full body. */
  function ExtentFromReply(reply: string): (e: BodyExtent)
    ensures var u := Upper(reply);
            (e == HeadOnly <==> Contains(u, "HEAD_ONLY")) &&
            (e == HeadNeck <==> !Contains(u, "HEAD_ONLY") && Contains(u, "HEAD_NECK")) &&
            (e == HeadChest <==> !Contains(u, "HEAD_ONLY") && !Contains(u, "HEAD_NECK") && Contains(u, "HEAD_CHEST")) &&
            (e == FullBody <==> !Contains(u, "HEAD_ONLY") && !Contains(u, "HEAD_NECK") && !Contains(u, "HEAD_CHEST"))
  {
    var u := Upper(reply);
    if Contains(u, "HEAD_ONLY") then HeadOnly
    else if Contains(u, "HEAD_NECK") then HeadNeck
    else if Contains(u, "HEAD_CHEST") then HeadChest
    else FullBody
  }

  /** Case does not matter: a reply and its upper case parse alike. */
  lemma ParseIgnoresCase(reply: string)
    ensures TypeFromReply(Upper(reply)) == TypeFromReply(reply)
    ensures ExtentFromReply(Upper(reply)) == ExtentFromReply(reply)
  {
    UpperIdempotent(reply);
  }

  /** A reply is read the same whatever surrounds the keyword it names
      first: e.g. "The answer is head_only." is HEAD_ONLY. */
  lemma KeywordInContext(pre: string, post: string)
    ensures ExtentFromReply(pre + "head_only" + post) == HeadOnly
    ensures TypeFromReply(pre + "illustration" + post) == Illustration
  {
    var s := pre + "head_only" + post;
    assert Upper(s) == Upper(pre) + "HEAD_ONLY" + Upper(post);
    ContainsTrivial("HEAD_ONLY");
    ContainsWithin(Upper(pre), "HEAD_ONLY", Upper(post), "HEAD_ONLY");
    var t := pre + "illustration" + post;
    assert Upper(t) == Upper(pre) + "ILLUSTRATION" + Upper(post);
    ContainsTrivial("ILLUSTRATION");
    ContainsWithin(Upper(pre), "ILLUSTRATION", Upper(post), "ILLUSTRATION");
  }

  /** A reply too short to hold any keyword (the shortest, HEAD_ONLY and
      HEAD_NECK, have 9 characters) means a full-body photo. */
  lemma ShortReplyIsFullBodyPhoto(reply: string)
    requires |reply| < 9
    ensures TypeFromReply(reply) == Photo && ExtentFromReply(reply) == FullBody
  {
    var u := Upper(reply);
    ShortNeverContains(u, "ILLUSTRATION");
    ShortNeverContains(u, "HEAD_ONLY");
    ShortNeverContains(u, "HEAD_NECK");
    ShortNeverContains(u, "HEAD_CHEST");
  }
}
