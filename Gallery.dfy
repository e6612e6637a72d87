/**
 * The gallery controller: the catalogue received from the metadata endpoint, the
 * registry of every tag seen so far, the active tag filter and the filtered view,
 * and the add / edit / delete round trips against the endpoint.
 *
 * HTTP is abstracted: a request is a value the controller issues, and the server's
 * answer is an input (`Response`): either the snapshot of the whole gallery or the
 * status code of an error response. A dialog is an oracle that yields a picture or
 * nothing (`Option<Picture>`); the login token from the cookie store is an input.
 */
module Gallery {
  import opened Wrappers
  import opened Pictures
  import BasicAuth
  import Decimal

  /** The JSON body every gallery endpoint answers with; only `pictures` is used. */
  datatype Snapshot = Snapshot(pictures: seq<Picture>)

  /** How a request ended: the server's snapshot, or an error response with its HTTP status. */
  datatype Response = Delivered(snapshot: Snapshot) | Failed(status: int)

  datatype HttpMethod = Get | Post | Put | Delete
  datatype Body = DataBody(data: PictureData) | PictureBody(picture: Picture)
  datatype Request = Request(verb: HttpMethod, url: string, headers: map<string, string>, body: Option<Body>)

  /** The three operations that change the gallery on the server. */
  datatype Mutation = Add | Edit | Remove

  const ContentType: string := "Content-Type"
  const Authorization: string := "Authorization"
  const Json: string := "application/json"

  function VerbName(m: Mutation): string {
    match m
    case Add => "POST"
    case Edit => "PUT"
    case Remove => "DELETE"
  }

  const UnauthorizedNotice: string := "ERROR - User unauthorized"

  predicate IsErrorNotice(s: string) {
    |s| >= 8 && s[..8] == "ERROR - "
  }

  /** The snack-bar text shown after a successful mutation. */
  function SuccessNotice(m: Mutation): (r: string)
    ensures !IsErrorNotice(r)
  {
    var r := match m
      case Add => "Neues Bild angelegt"
      case Edit => "Bild erfolgreich editiert"
      case Remove => "Bild erfolgreich gelöscht";
    assert r[0] != 'E';
    r
  }

  /** The snack-bar text shown after a failed mutation, chosen by the status code. */
  function FailureNotice(m: Mutation, status: int): (r: string)
    ensures IsErrorNotice(r)
    ensures r == UnauthorizedNotice <==> status == 401
  {
    if status == 401 then UnauthorizedNotice
    else
      var r := "ERROR - " + VerbName(m) + " call in error";
      assert r[8] != UnauthorizedNotice[8];
      r
  }

  /** Apart from a 401, the failure text names the HTTP method, so the three mutations fail differently. */
  lemma FailureNoticeNamesVerb(m1: Mutation, m2: Mutation, status: int)
    requires status != 401 && m1 != m2
    ensures FailureNotice(m1, status) != FailureNotice(m2, status)
  {
    var r1, r2 := FailureNotice(m1, status), FailureNotice(m2, status);
    assert r1[8] != r2[8] || r1[9] != r2[9];
  }

  /**
   * The headers of a mutating request: Content-Type when a JSON body goes with it,
   * and always the Basic authorization value built from the token.
   */
  ghost predicate CarriesCredentials(h: map<string, string>, token: string, json: bool) {
    && h.Keys == (if json then {ContentType, Authorization} else {Authorization})
    && (json ==> h[ContentType] == Json)
    && Some(h[Authorization]) == BasicAuth.AuthorizationValue(token)
  }

  /**
   * Builds the headers the way the request methods do, one `set` after another.
   * None stands for btoa throwing on a token character above U+00FF, which ends
   * the request method before anything is sent.
   */
  method MutationHeaders(token: string, json: bool) returns (headers: Option<map<string, string>>)
    ensures headers.Some? <==> BasicAuth.IsLatin1(token)
    ensures headers.Some? ==> CarriesCredentials(headers.value, token, json)
    ensures headers.Some? && ':' !in token ==>
      BasicAuth.ParseAuthorization(headers.value[Authorization]) == Some(BasicAuth.Credentials(token, ""))
  {
    var h: map<string, string> := map[];
    if json {
      h := h[ContentType := Json];
    }
    var auth := BasicAuth.AuthorizationValue(token);
    if auth.None? {
      return None;
    }
    h := h[Authorization := auth.value];
    headers := Some(h);
    if ':' !in token {
      BasicAuth.ParseAuthorizationValue(token);
    }
  }

  class GalleryComponent {
    const baseUrl: string
    /** Every tag seen in any snapshot so far; never shrinks. */
    var allKnownTags: set<string>
    var filterTags: set<string>
    /** None until the first snapshot arrives (the field is undefined until then). */
    var picturesMetadata: Option<seq<Picture>>
    var filteredPicturesMetadata: Option<seq<Picture>>

    /**
     * Once a catalogue is present, its ids are positions, the registry holds all
     * its tags and the filtered view is the filter applied to it; before that
     * there is no filtered view either.
     */
    ghost predicate Valid()
      reads this
    {
      match picturesMetadata
      case None => filteredPicturesMetadata.None?
      case Some(pics) =>
        && Positional(pics)
        && TagsOf(pics) <= allKnownTags
        && filteredPicturesMetadata == Some(FilterView(pics, filterTags))
    }

    /** The state after a snapshot has replaced the catalogue. */
    twostate predicate Refreshed(snapshot: Snapshot)
      reads this
    {
      && picturesMetadata == Some(Renumbered(snapshot.pictures))
      && allKnownTags == old(allKnownTags) + TagsOf(snapshot.pictures)
      && filterTags == old(filterTags)
      && filteredPicturesMetadata == Some(FilterView(Renumbered(snapshot.pictures), filterTags))
    }

    /**
     * How a mutation ends: nothing happens when no request was sent; a snapshot
     * refreshes the catalogue and brings the success notice; an error leaves the
     * state as it was and brings the notice chosen by the status.
     */
    twostate predicate Settled(m: Mutation, sent: bool, response: Response, new notice: Option<string>)
      reads this
    {
      if !sent then notice.None? && unchanged(this)
      else
        match response
        case Delivered(snapshot) => Refreshed(snapshot) && notice == Some(SuccessNotice(m))
        case Failed(status) => unchanged(this) && notice == Some(FailureNotice(m, status))
    }

    constructor (environmentBaseUrl: string)
      ensures Valid()
      ensures baseUrl == environmentBaseUrl + "/gallery"
      ensures allKnownTags == {} && filterTags == {}
      ensures picturesMetadata.None? && filteredPicturesMetadata.None?
    {
      baseUrl := environmentBaseUrl + "/gallery";
      allKnownTags := {};
      filterTags := {};
      picturesMetadata := None;
      filteredPicturesMetadata := None;
    }

    /**
     * Replaces the catalogue by the snapshot, renumbering each picture by its
     * position and adding every tag met to the registry, then recomputes the view.
     */
    method RefreshPictureGrid(snapshot: Snapshot)
      modifies this
      ensures Valid()
      ensures Refreshed(snapshot)
      ensures old(allKnownTags) <= allKnownTags
    {
      var pics := RenumberAndRegister(snapshot.pictures);
      picturesMetadata := Some(pics);
      FilterPictures();
    }

    /**
     * The loop of the refresh: each picture's id becomes its index and each of its
     * tags joins the registry.
     */
    method RenumberAndRegister(snapshot: seq<Picture>) returns (pics: seq<Picture>)
      modifies this`allKnownTags
      ensures pics == Renumbered(snapshot) && Positional(pics)
      ensures allKnownTags == old(allKnownTags) + TagsOf(pics)
      ensures allKnownTags == old(allKnownTags) + TagsOf(snapshot)
    {
      pics := snapshot;
      var ii := 0;
      while ii < |pics|
        invariant 0 <= ii <= |pics| == |snapshot|
        invariant forall k :: 0 <= k < ii ==> pics[k] == snapshot[k].(id := k)
        invariant forall k :: ii <= k < |pics| ==> pics[k] == snapshot[k]
        invariant allKnownTags == old(allKnownTags) + TagsOf(snapshot[..ii])
      {
        pics := pics[ii := pics[ii].(id := ii)];
        AddKnownTags(pics[ii].tags);
        TagsOfSnoc(snapshot, ii);
        ii := ii + 1;
      }
      assert snapshot[..ii] == snapshot;
      RenumberedByLoop(pics, snapshot);
    }

    /** The inner loop of the refresh: every tag of one picture joins the registry. */
    method AddKnownTags(tags: seq<string>)
      modifies this`allKnownTags
      ensures allKnownTags == old(allKnownTags) + TagSet(tags)
    {
      var jj := 0;
      while jj < |tags|
        invariant 0 <= jj <= |tags|
        invariant allKnownTags == old(allKnownTags) + TagSet(tags[..jj])
      {
        TagSetSnoc(tags, jj);
        allKnownTags := allKnownTags + {tags[jj]};
        jj := jj + 1;
      }
      assert tags[..jj] == tags;
    }

    /**
     * Recomputes the filtered view. Before the first snapshot the catalogue is
     * undefined and the source's `filter` call throws: the view is then left as is.
     */
    method FilterPictures()
      modifies this`filteredPicturesMetadata
      ensures picturesMetadata.Some? ==>
        filteredPicturesMetadata == Some(FilterView(picturesMetadata.value, filterTags))
      ensures picturesMetadata.None? ==> filteredPicturesMetadata == old(filteredPicturesMetadata)
    {
      if picturesMetadata.Some? {
        filteredPicturesMetadata := Some(FilterView(picturesMetadata.value, filterTags));
      }
    }

    method AddFilterTag(tag: string)
      requires Valid()
      modifies this`filterTags, this`filteredPicturesMetadata
      ensures Valid()
      ensures filterTags == old(filterTags) + {tag}
      ensures picturesMetadata == old(picturesMetadata) && allKnownTags == old(allKnownTags)
      ensures tag in old(filterTags) ==> unchanged(this)
    {
      ghost var present := tag in filterTags;
      filterTags := filterTags + {tag};
      assert present ==> filterTags == old(filterTags);
      FilterPictures();
    }

    method RemoveFilterTag(tag: string)
      requires Valid()
      modifies this`filterTags, this`filteredPicturesMetadata
      ensures Valid()
      ensures filterTags == old(filterTags) - {tag}
      ensures picturesMetadata == old(picturesMetadata) && allKnownTags == old(allKnownTags)
      ensures tag !in old(filterTags) ==> unchanged(this)
    {
      ghost var absent := tag !in filterTags;
      filterTags := filterTags - {tag};
      assert absent ==> filterTags == old(filterTags);
      FilterPictures();
    }

    /** The initial load: an unauthenticated GET whose failure is only logged. */
    method GetGalleryMetadataAPI(response: Response) returns (request: Request)
      requires Valid()
      modifies this
      ensures Valid()
      ensures request == Request(Get, baseUrl + "/metadata", map[], None)
      ensures response.Delivered? ==> Refreshed(response.snapshot)
      ensures response.Failed? ==> unchanged(this)
    {
      request := Request(Get, baseUrl + "/metadata", map[], None);
      if response.Delivered? {
        RefreshPictureGrid(response.snapshot);
      }
    }

    /** Handles the answer to a request that was sent. */
    method Complete(m: Mutation, response: Response) returns (notice: Option<string>)
      requires Valid()
      modifies this
      ensures Valid()
      ensures Settled(m, true, response, notice)
    {
      match response
      case Delivered(snapshot) =>
        RefreshPictureGrid(snapshot);
        notice := Some(SuccessNotice(m));
      case Failed(status) =>
        notice := Some(FailureNotice(m, status));
    }

    method PostPictureAPI(picture: PictureData, token: string, response: Response)
      returns (request: Option<Request>, notice: Option<string>)
      requires Valid()
      modifies this
      ensures Valid()
      ensures request.Some? <==> BasicAuth.IsLatin1(token)
      ensures request.Some? ==>
        && request.value.verb == Post
        && request.value.url == baseUrl + "/metadata"
        && request.value.body == Some(DataBody(picture))
        && CarriesCredentials(request.value.headers, token, true)
      ensures Settled(Add, request.Some?, response, notice)
    {
      var headers := MutationHeaders(token, true);
      if headers.None? {
        return None, None;
      }
      request := Some(Request(Post, baseUrl + "/metadata", headers.value, Some(DataBody(picture))));
      notice := Complete(Add, response);
    }

    method PutPictureAPI(picture: Picture, token: string, response: Response)
      returns (request: Option<Request>, notice: Option<string>)
      requires Valid()
      modifies this
      ensures Valid()
      ensures request.Some? <==> BasicAuth.IsLatin1(token)
      ensures request.Some? ==>
        && request.value.verb == Put
        && request.value.url == baseUrl + "/metadata"
        && request.value.body == Some(PictureBody(picture))
        && CarriesCredentials(request.value.headers, token, true)
      ensures Settled(Edit, request.Some?, response, notice)
    {
      var headers := MutationHeaders(token, true);
      if headers.None? {
        return None, None;
      }
      request := Some(Request(Put, baseUrl + "/metadata", headers.value, Some(PictureBody(picture))));
      notice := Complete(Edit, response);
    }

    method DeletePictureAPI(picture: Picture, token: string, response: Response)
      returns (request: Option<Request>, notice: Option<string>)
      requires Valid()
      modifies this
      ensures Valid()
      ensures request.Some? <==> BasicAuth.IsLatin1(token)
      ensures request.Some? ==>
        && request.value.verb == Delete
        && request.value.url == baseUrl + "/metadata/" + Decimal.IntToString(picture.id)
        && request.value.body.None?
        && CarriesCredentials(request.value.headers, token, false)
      ensures Settled(Remove, request.Some?, response, notice)
    {
      var headers := MutationHeaders(token, false);
      if headers.None? {
        return None, None;
      }
      var delUrl := baseUrl + "/metadata/" + Decimal.IntToString(picture.id);
      request := Some(Request(Delete, delUrl, headers.value, None));
      notice := Complete(Remove, response);
    }

    /** The add dialog closed: a result is stripped of its id and POSTed; no result, nothing. */
    method AddPicture(result: Option<Picture>, token: string, response: Response)
      returns (request: Option<Request>, notice: Option<string>)
      requires Valid()
      modifies this
      ensures Valid()
      ensures request.Some? <==> result.Some? && BasicAuth.IsLatin1(token)
      ensures request.Some? ==>
        && request.value.verb == Post
        && request.value.url == baseUrl + "/metadata"
        && request.value.body == Some(DataBody(DataOf(result.value)))
        && CarriesCredentials(request.value.headers, token, true)
      ensures Settled(Add, request.Some?, response, notice)
    {
      if result.Some? {
        request, notice := PostPictureAPI(DataOf(result.value), token, response);
      } else {
        request, notice := None, None;
      }
    }

    /** The edit dialog closed: a result is PUT as it is; no result, nothing. */
    method EditPicture(result: Option<Picture>, token: string, response: Response)
      returns (request: Option<Request>, notice: Option<string>)
      requires Valid()
      modifies this
      ensures Valid()
      ensures request.Some? <==> result.Some? && BasicAuth.IsLatin1(token)
      ensures request.Some? ==>
        && request.value.verb == Put
        && request.value.url == baseUrl + "/metadata"
        && request.value.body == Some(PictureBody(result.value))
        && CarriesCredentials(request.value.headers, token, true)
      ensures Settled(Edit, request.Some?, response, notice)
    {
      if result.Some? {
        request, notice := PutPictureAPI(result.value, token, response);
      } else {
        request, notice := None, None;
      }
    }

    /** The delete dialog closed: a result's id names the picture to DELETE; no result, nothing. */
    method DeletePicture(result: Option<Picture>, token: string, response: Response)
      returns (request: Option<Request>, notice: Option<string>)
      requires Valid()
      modifies this
      ensures Valid()
      ensures request.Some? <==> result.Some? && BasicAuth.IsLatin1(token)
      ensures request.Some? ==>
        && request.value.verb == Delete
        && request.value.url == baseUrl + "/metadata/" + Decimal.IntToString(result.value.id)
        && request.value.body.None?
        && CarriesCredentials(request.value.headers, token, false)
      ensures Settled(Remove, request.Some?, response, notice)
    {
      if result.Some? {
        request, notice := DeletePictureAPI(result.value, token, response);
      } else {
        request, notice := None, None;
      }
    }
  }

  /**
   * A session: load one picture tagged x and y, narrow the view by tag, delete the
   * picture, then fail to add one for lack of authorization.
   */
  method Session() {
    var g := new GalleryComponent("https://example.org");
    var a := Picture(7, "A", ["x", "y"], "a.png");
    var a0 := a.(id := 0);
    var get := g.GetGalleryMetadataAPI(Delivered(Snapshot([a])));
    assert Renumbered([a]) == [a0];
    assert "x" in TagsOf([a]) && "y" in TagsOf([a]);
    SessionFilter(g, a0);
  }

  method SessionFilter(g: GalleryComponent, a0: Picture)
    requires g.Valid() && g.picturesMetadata == Some([a0]) && g.filterTags == {}
    requires a0 == Picture(0, "A", ["x", "y"], "a.png")
    requires "x" in g.allKnownTags && "y" in g.allKnownTags
    modifies g
  {
    FilterScenario();
    g.AddFilterTag("x");
    assert g.filterTags == {"x"};
    assert g.filteredPicturesMetadata == Some([a0]);
    g.AddFilterTag("z");
    assert g.filterTags == {"x", "z"};
    assert g.filteredPicturesMetadata == Some([]);
    SessionDelete(g, a0);
  }

  method SessionDelete(g: GalleryComponent, a0: Picture)
    requires g.Valid() && "x" in g.allKnownTags && "y" in g.allKnownTags
    modifies g
  {
    assert BasicAuth.IsLatin1("token");
    var del, deleted := g.DeletePicture(Some(a0), "token", Delivered(Snapshot([])));
    assert g.picturesMetadata == Some([]);
    assert "x" in g.allKnownTags && "y" in g.allKnownTags;
    SessionUnauthorized(g, a0);
  }

  method SessionUnauthorized(g: GalleryComponent, a0: Picture)
    requires g.Valid()
    modifies g
  {
    ghost var catalogue := g.picturesMetadata;
    assert BasicAuth.IsLatin1("token");
    var post, refused := g.AddPicture(Some(a0), "token", Failed(401));
    assert refused == Some(UnauthorizedNotice);
    assert g.picturesMetadata == catalogue;
  }
}
