/**
  The content-type decision of `kms_http_ep_server_post_handler`: whether a
  POST is refused, taken as a raw body, or taken as a multipart body with a
  boundary.
*/
module PostContent {
  import opened Wrappers

  /** Status codes the server sets on a request. */
  const STATUS_OK: int := 200
  const STATUS_BAD_REQUEST: int := 400
  const STATUS_NOT_FOUND: int := 404
  const STATUS_METHOD_NOT_ALLOWED: int := 405
  const STATUS_NOT_ACCEPTABLE: int := 406

  const MULTIPART_PREFIX: string := "multipart/"

  datatype PostDecision =
    | NotAcceptable                    // 406: nothing subscribed
    | Raw                              // 200: every chunk pushed whole
    | Multipart(boundary: seq<bv8>)    // 200: chunks cut by the boundary

  /**
    `g_str_has_prefix ("multipart/", content_type)`: the arguments are
    reversed, so the test holds when the content type is a prefix of
    "multipart/", not the other way round.
  */
  predicate TreatedAsMultipart(contentType: string)
  {
    contentType <= MULTIPART_PREFIX
  }

  /**
    The decision from the request's media type (`None` when there is no
    Content-Type header) and its `boundary` parameter.
  */
  function PostDecide(contentType: Option<string>, boundaryParam: Option<seq<bv8>>): (d: PostDecision)
    ensures d == NotAcceptable <==>
              contentType.None? || (TreatedAsMultipart(contentType.value) && boundaryParam.None?)
    ensures d.Multipart? <==>
              contentType.Some? && TreatedAsMultipart(contentType.value) && boundaryParam.Some?
    ensures d.Multipart? ==> d.boundary == boundaryParam.value
    ensures d == Raw <==> contentType.Some? && !TreatedAsMultipart(contentType.value)
  {
    match contentType
    case None => NotAcceptable
    case Some(ct) =>
      if !TreatedAsMultipart(ct) then Raw
      else
        match boundaryParam
        case None => NotAcceptable
        case Some(bd) => Multipart(bd)
  }

  /** The status the POST handler leaves on the message. */
  function PostStatus(d: PostDecision): (status: int)
    ensures status == STATUS_NOT_ACCEPTABLE <==> d == NotAcceptable
    ensures status == STATUS_OK <==> d != NotAcceptable
  {
    if d == NotAcceptable then STATUS_NOT_ACCEPTABLE else STATUS_OK
  }

  /** Every real multipart media type is longer than the prefix, so it is taken as a raw body and its boundary dropped. */
  lemma FullMediaTypeTreatedAsRaw(contentType: string, boundaryParam: Option<seq<bv8>>)
    requires |contentType| > |MULTIPART_PREFIX|
    ensures PostDecide(Some(contentType), boundaryParam) == Raw
  {
  }

  /** `multipart/form-data` with a boundary is pushed as raw bytes. */
  lemma FormDataTreatedAsRaw(bd: seq<bv8>)
    ensures PostDecide(Some("multipart/form-data"), Some(bd)) == Raw
  {
    FullMediaTypeTreatedAsRaw("multipart/form-data", Some(bd));
  }

  /** An empty media type, and any truncation of the prefix, counts as multipart and needs a boundary. */
  lemma PrefixOfMultipartNeedsBoundary(contentType: string)
    requires contentType <= MULTIPART_PREFIX
    ensures PostDecide(Some(contentType), None) == NotAcceptable
    ensures forall bd :: PostDecide(Some(contentType), Some(bd)) == Multipart(bd)
  {
  }

  /** The only way to get a multipart body is an empty media type or a truncation of "multipart/". */
  lemma MultipartOnlyForPrefixes(contentType: string, bd: seq<bv8>)
    requires PostDecide(Some(contentType), Some(bd)).Multipart?
    ensures |contentType| <= 10 && contentType == MULTIPART_PREFIX[..|contentType|]
  {
  }
}
