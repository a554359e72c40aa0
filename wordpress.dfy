/**
 * What `publish_to_wordpress` prepares before it talks to a server: the XML-RPC
 * endpoints to try, the post structure handed to `metaWeblog.newPost`, and the blog ids to try
 * on each endpoint.
 */
module XmlRpcRequest {
  import opened Wrappers
  import opened PyText
  import opened Posts

  const XmlRpcPath: string := "/xmlrpc.php"
  const HostedEndpoint: string := "https://wordpress.com/xmlrpc.php"

  /** The endpoints to try for a site: its own, then, for a site on wordpress.com, the
      main wordpress.com endpoint. */
  function Endpoints(site: string): (r: seq<string>)
    ensures 1 <= |r| <= 2 && r[0] == site + XmlRpcPath
    ensures |r| == 2 <==> Contains(site, "wordpress.com")
    ensures |r| == 2 ==> r[1] == HostedEndpoint
  {
    if Contains(site, "wordpress.com") then [site + XmlRpcPath, HostedEndpoint]
    else [site + XmlRpcPath]
  }

  /** Every endpoint tried is an XML-RPC endpoint. */
  lemma EndpointsAreXmlRpc(site: string)
    ensures forall k :: 0 <= k < |Endpoints(site)| ==> EndsWith(Endpoints(site)[k], XmlRpcPath)
  {
    var own := site + XmlRpcPath;
    assert own[|own| - |XmlRpcPath|..] == XmlRpcPath;
    assert HostedEndpoint[|HostedEndpoint| - |XmlRpcPath|..] == XmlRpcPath;
  }

  /** The post structure sent to the server. */
  datatype PostData = PostData(postTitle: Option<string>, postContent: string, postStatus: string, postType: string)

  /** How Python formats a body that may be missing: a missing one prints as "None". */
  function BodyText(bodyHtml: Option<string>): string {
    match bodyHtml
    case Some(b) => b
    case None => "None"
  }

  /** The content: the subtitle as a second-level heading, a newline, then the body. */
  function Content(post: Post): string {
    "<h2>" + post.subtitle.GetOr("") + "</h2>\n" + BodyText(post.bodyHtml)
  }

  /** The post structure for a post and a publishing status: anything but "draft"
      publishes. */
  function BuildPostData(post: Post, publishStatus: string): (r: PostData)
    ensures r.postTitle == post.title && r.postType == "post"
    ensures r.postStatus == "draft" || r.postStatus == "publish"
    ensures r.postStatus == "draft" <==> publishStatus == "draft"
    ensures r.postContent == Content(post)
  {
    PostData(post.title, Content(post), if publishStatus == "draft" then "draft" else "publish", "post")
  }

  /** The closing tag of the heading. */
  const HeadingEnd: string := "</h2>\n"

  /** The subtitle and the body can be read back from the content: the heading is closed by
      the first "</h2>" followed by a newline when the subtitle holds no "</h2>". */
  lemma ContentRoundTrip(post: Post)
    requires !Contains(post.subtitle.GetOr(""), "</h2>")
    ensures var c := Content(post); var e := Find(c, HeadingEnd);
            e == 4 + |post.subtitle.GetOr("")| &&
            c[4..e] == post.subtitle.GetOr("") &&
            c[e + |HeadingEnd|..] == BodyText(post.bodyHtml)
  {
    var sub := post.subtitle.GetOr("");
    var c := Content(post);
    var e := 4 + |sub|;
    assert c[e..e + |HeadingEnd|] == HeadingEnd;
    forall i | 0 <= i < e ensures !Occurs(c, HeadingEnd, i) {
      if i == 0 {
        MismatchAt(c, HeadingEnd, i, 1);
      } else if i < 4 {
        MismatchAt(c, HeadingEnd, i, 0);
      } else if i + 5 <= e {
        // an occurrence here would put "</h2>" inside the subtitle
        var j := i - 4;
        assert c[i..i + 5] == sub[j..j + 5];
        assert !Occurs(sub, "</h2>", j);
        assert c[i..i + 5] != HeadingEnd[..5];
        if i + |HeadingEnd| <= |c| {
          assert c[i..i + 5] == c[i..i + |HeadingEnd|][..5];
        }
      } else {
        // an occurrence here would need a '<' among the closing tag's last characters
        MismatchAt(c, HeadingEnd, i, e - i);
      }
    }
    FindIs(c, HeadingEnd, e);
    assert c[4..e] == sub;
  }

  /** A blog id as the server returns it. */
  datatype BlogId = IntId(n: int) | StrId(s: string)

  /** One entry of `wp.getUsersBlogs`, read as a dictionary or as an object: its `blogid`,
      `None` when it has none. */
  datatype BlogEntry = BlogEntry(blogid: Option<BlogId>)

  /** Python truthiness of a blog id. */
  predicate Truthy(id: BlogId) {
    match id
    case IntId(n) => n != 0
    case StrId(s) => s != ""
  }

  /** The truthy blog ids of the entries, in order. */
  function TruthyIds(blogs: seq<BlogEntry>): seq<BlogId>
    decreases |blogs|
  {
    if blogs == [] then []
    else
      var last := blogs[|blogs| - 1].blogid;
      TruthyIds(blogs[..|blogs| - 1]) + if last.Some? && Truthy(last.value) then [last.value] else []
  }

  /** An id is kept exactly when some entry has it and it is truthy. */
  lemma {:induction false} TruthyIdsMembers(blogs: seq<BlogEntry>)
    ensures forall id :: id in TruthyIds(blogs) <==> Truthy(id) && BlogEntry(Some(id)) in blogs
    decreases |blogs|
  {
    if blogs != [] {
      var init := blogs[..|blogs| - 1];
      assert blogs == init + [blogs[|blogs| - 1]];
      TruthyIdsMembers(init);
    }
  }

  /** The blog ids to try on one endpoint: the truthy ids the server reported, in order,
      then 0 and 1. */
  method BlogIdsToTry(blogs: seq<BlogEntry>) returns (ids: seq<BlogId>)
    ensures ids == TruthyIds(blogs) + [IntId(0), IntId(1)]
  {
    ids := [];
    var i := 0;
    while i < |blogs|
      invariant 0 <= i <= |blogs|
      invariant ids == TruthyIds(blogs[..i])
    {
      assert blogs[..i + 1][..i] == blogs[..i];
      var bid := blogs[i].blogid;
      if bid.Some? && Truthy(bid.value) {
        ids := ids + [bid.value];
      }
      i := i + 1;
    }
    assert blogs[..i] == blogs;
    ids := ids + [IntId(0), IntId(1)];
  }
}
