# Gallery controller — a Dafny model

This project models the client-side state of the picture gallery of the broz website:
the `GalleryComponent` Angular controller (`broz-frontend/src/app/gallery/gallery.component.ts`).
The controller keeps four pieces of state. The catalogue (`picturesMetadata`) is the last
snapshot the metadata endpoint returned, with every picture's `id` rewritten to its position.
The tag registry (`allKnownTags`) holds every tag ever seen and only grows. The filter set
(`filterTags`) is changed by the user. The filtered view (`filteredPicturesMetadata`) is
recomputed after every refresh and every filter change. Adding, editing and deleting a
picture go through a dialog and an authenticated request. Each request carries
`Authorization: Basic base64(token + ":")`. On success the server's whole snapshot replaces
the catalogue and a success notice is shown. On failure the state is left alone and the
notice depends on whether the status was 401.

Files and modules:

- `Wrappers.dfy`: `Option`.
- `Base64.dfy`: the Base64 encoding of section 4 of RFC 4648, which `btoa` applies to the
  bytes of a string. It comes with a strict decoder. Both round trips are proved:
  `Decode(Encode(b)) == Some(b)`, and every string the decoder accepts is `Encode` of its result.
- `BasicAuth.dfy`: `btoa` (a Latin-1 check, then Base64), the `"Basic "` header value, and
  the parse a server applies to it (section 2 of RFC 7617: user-id, colon, password).
  For a Latin-1 token without a colon, the token comes back out of the header as the
  user-id, with an empty password. Nothing in the code keeps a colon out of the token; for
  any Latin-1 token the parse splits `token + ":"` at its first colon, so a token `a:b`
  reads back as user-id `a` and password `b:`.
- `Decimal.dfy`: the decimal rendering of the id in the DELETE URL, with its parse and the
  round trip between them.
- `Pictures.dfy`: the `Picture` / `PictureData` records, renumbering, the tag index, and the
  filter rule the code applies. The filtered view is specified in this module.
- `Gallery.dfy`: the controller as the class `GalleryComponent`. Its fields are the four
  pieces of state. An object invariant `Valid()` says three things. Catalogue ids are
  positions. The registry covers the catalogue's tags. The view is the filter applied to the
  catalogue. The file also holds the request and notice model and a client session that
  loads one picture tagged x and y, narrows the view by tag, deletes the picture and then
  fails an unauthorized add.

HTTP is abstract. Each mutating `*API` method and each dialog handler takes the server's answer as an
input, a `Response`: either `Delivered(snapshot)` or `Failed(status)`. It returns the request
it issued (or `None` when it issued none) and the notice it showed. The dialogs are oracles
giving `Option<Picture>`. A falsy dialog result is `None`. `GetGalleryMetadataAPI` also takes a
`Response`, but returns just its GET request and shows no notice. The login token read from the
cookie store is a parameter.

Points where the code's behaviour is easy to misread:

- The filter does not test "the picture's tags include every filter tag". It keeps a
  picture when the number of its tag entries that are in the filter equals the size of the
  filter (line 250). The model states this count rule (`Pictures.Keeps`). It proves the rule
  equals the superset rule when a picture's tags are distinct (`Pictures.KeepsIffSuperset`).
  Two lemmas show it differs when a tag is repeated: `["x","x"]` is kept by `{x, y}` and
  dropped by `{x}`.
- The code keeps no sync-status variable; a failed GET is only logged, so the model has none
  either.
- The two exceptions the code can raise are modelled by their effect. `btoa` throws on a
  token character above U+00FF, so no request is sent. Filtering before the first snapshot
  throws, because the catalogue is still undefined, so the view is not assigned. The filter
  tag has already been added when that happens.

## Model

| member | source | states |
|---|---|---|
| `Pictures.DataOf` | broz-frontend/src/app/gallery/gallery.component.ts:86 | the dialog result's name, tags and file, without its id: putting the id back gives the picture again |
| `Pictures.Renumbered` | broz-frontend/src/app/gallery/gallery.component.ts:228-230 | the catalogue has the snapshot's length; position i holds id i and otherwise the snapshot's picture i (name, tags, file) |
| `Pictures.TagsOf` | broz-frontend/src/app/gallery/gallery.component.ts:231-233 | a tag is in the union iff some picture of the catalogue carries it |
| `Pictures.TagsOfRenumbered` | broz-frontend/src/app/gallery/gallery.component.ts:229-233 | rewriting ids leaves the set of tags the catalogue uses unchanged |
| `Pictures.CountIn` | broz-frontend/src/app/gallery/gallery.component.ts:250 | the count of tag entries in the filter (duplicates counted) is at most the number of tags, and zero iff no tag entry is in the filter |
| `Pictures.Keeps` | broz-frontend/src/app/gallery/gallery.component.ts:250 | a picture is kept iff the number of its tag entries that are in the filter equals the filter's size; so an empty filter keeps every picture, and a kept picture under a non-empty filter has at least as many tag entries as the filter has tags and at least one of them in the filter |
| `Pictures.FilterView` | broz-frontend/src/app/gallery/gallery.component.ts:250 | the view is an order-preserving subsequence of the catalogue and holds a picture iff the catalogue holds it and the count rule keeps it |
| `Pictures.FilterViewMultiplicity` | broz-frontend/src/app/gallery/gallery.component.ts:250 | each picture occurs in the view as often as in the catalogue when the count rule keeps it, and not at all otherwise |
| `Pictures.FilterViewEmpty` | broz-frontend/src/app/gallery/gallery.component.ts:250 | with an empty filter set the view is the whole catalogue |
| `Pictures.CountInDistinct` | broz-frontend/src/app/gallery/gallery.component.ts:250 | for distinct tags the count equals the size of the intersection of the tag set with the filter |
| `Pictures.KeepsIffSuperset` | broz-frontend/src/app/gallery/gallery.component.ts:250 | for distinct tags the count rule keeps a picture iff every filter tag is among its tags |
| `Pictures.DuplicateTagKeepsWithoutSuperset` | broz-frontend/src/app/gallery/gallery.component.ts:250 | tags ["x","x"] pass the filter {x, y} though y is missing |
| `Pictures.DuplicateTagDropsSuperset` | broz-frontend/src/app/gallery/gallery.component.ts:250 | tags ["x","x"] fail the filter {x} though x is present |
| `Pictures.FilterScenario` | broz-frontend/src/app/gallery/gallery.component.ts:239-250 | a picture tagged x, y is kept by {x} and dropped by {x, z} |
| `Base64.CharOf` | broz-frontend/src/app/gallery/gallery.component.ts:153 | every 6-bit value has a character of the alphabet, never the pad, and decoding that character gives the value back |
| `Base64.ValueOf` | broz-frontend/src/app/gallery/gallery.component.ts:153 | a character has a 6-bit value iff it belongs to the Base64 alphabet |
| `Base64.EncodeGroup` | broz-frontend/src/app/gallery/gallery.component.ts:153 | three bytes become four alphabet characters |
| `Base64.EncodeTail2` | broz-frontend/src/app/gallery/gallery.component.ts:153 | a final pair of bytes becomes three characters and one pad |
| `Base64.EncodeTail1` | broz-frontend/src/app/gallery/gallery.component.ts:153 | a final single byte becomes two characters and two pads |
| `Base64.Encode` | broz-frontend/src/app/gallery/gallery.component.ts:153 | the encoding is 4·⌈n/3⌉ characters long and uses only the alphabet and the pad |
| `Base64.DecodeQuantum` | broz-frontend/src/app/gallery/gallery.component.ts:153 | a quantum decodes to one to three bytes, and to fewer than three only when it is the last |
| `Base64.DecodeEncode` | broz-frontend/src/app/gallery/gallery.component.ts:153 | decoding an encoding gives back the bytes |
| `Base64.EncodeDecodedQuantum` | broz-frontend/src/app/gallery/gallery.component.ts:153 | a quantum the decoder accepts is the encoding of the bytes it yields |
| `Base64.EncodeDecode` | broz-frontend/src/app/gallery/gallery.component.ts:153 | every string the decoder accepts is the encoding of its result, so the encoding is canonical |
| `BasicAuth.Latin1Bytes` | broz-frontend/src/app/gallery/gallery.component.ts:153 | a string has bytes iff every character is at most U+00FF; byte i is the code of character i |
| `BasicAuth.Latin1String` | broz-frontend/src/app/gallery/gallery.component.ts:153 | turning bytes into characters gives a Latin-1 string whose bytes are the original ones |
| `BasicAuth.Btoa` | broz-frontend/src/app/gallery/gallery.component.ts:153 | btoa succeeds iff the string is Latin-1, with an output of 4·⌈n/3⌉ characters |
| `BasicAuth.AtobBtoa` | broz-frontend/src/app/gallery/gallery.component.ts:153 | decoding btoa's output gives back the string |
| `BasicAuth.AuthorizationValue` | broz-frontend/src/app/gallery/gallery.component.ts:153 | the header value exists iff the token is Latin-1, and it starts with "Basic " |
| `BasicAuth.SplitAtColon` | broz-frontend/src/app/gallery/gallery.component.ts:153 | the split succeeds iff there is a colon; the user-id has no colon and user-id ":" password rebuilds the input |
| `BasicAuth.ParseAuthorizationOfToken` | broz-frontend/src/app/gallery/gallery.component.ts:150-153 | for any Latin-1 token a server parsing the header gets the first-colon split of token + ":" |
| `BasicAuth.ParseAuthorizationValue` | broz-frontend/src/app/gallery/gallery.component.ts:150-153 | a server parsing the header gets back the token as user-id and an empty password, for a Latin-1 token without a colon |
| `BasicAuth.ColonInTokenSplits` | broz-frontend/src/app/gallery/gallery.component.ts:150-153 | a token holding a colon is not recovered: for `a:b` the server sees user-id `a` and password `b:` |
| `Decimal.NatToString` | broz-frontend/src/app/gallery/gallery.component.ts:205 | the rendering is a non-empty string of digits with no leading zero |
| `Decimal.IntToString` | broz-frontend/src/app/gallery/gallery.component.ts:205 | the rendering starts with '-' iff the id is negative |
| `Decimal.ParseNat` | broz-frontend/src/app/gallery/gallery.component.ts:205 | a string parses iff it is a non-empty string of digits |
| `Decimal.ParseIntToString` | broz-frontend/src/app/gallery/gallery.component.ts:205 | parsing the rendered id gives back the id |
| `Gallery.SuccessNotice` | broz-frontend/src/app/gallery/gallery.component.ts:159-210 | the POST, PUT and DELETE success texts (lines 159, 185, 210) are never error notices |
| `Gallery.FailureNotice` | broz-frontend/src/app/gallery/gallery.component.ts:161-218 | for POST, PUT and DELETE (lines 161-167, 187-193, 212-218) a failure notice is an error notice, and it is "ERROR - User unauthorized" iff the status is 401 |
| `Gallery.FailureNoticeNamesVerb` | broz-frontend/src/app/gallery/gallery.component.ts:166-217 | for a status other than 401 the failure text names the HTTP method (lines 166, 192, 217), so different mutations give different texts |
| `Gallery.MutationHeaders` | broz-frontend/src/app/gallery/gallery.component.ts:150-153 | headers exist iff btoa accepts the token; they are Authorization plus Content-Type: application/json exactly when a JSON body goes along; for a token without a colon, the Authorization value parses back to the token as user-id with an empty password |
| `Gallery.GalleryComponent.constructor` | broz-frontend/src/app/gallery/gallery.component.ts:43-56 | empty registry and filter, no catalogue and no view, base URL environment + "/gallery" |
| `Gallery.GalleryComponent.RefreshPictureGrid` | broz-frontend/src/app/gallery/gallery.component.ts:226-237 | the catalogue is the renumbered snapshot; the registry gains exactly the snapshot's tags and loses none; the filter is kept; the view is recomputed; the invariant holds afterwards |
| `Gallery.GalleryComponent.RenumberAndRegister` | broz-frontend/src/app/gallery/gallery.component.ts:229-234 | the loop leaves each picture's id equal to its index with the other fields untouched, and the registry grows by exactly the tags of the snapshot |
| `Gallery.GalleryComponent.AddKnownTags` | broz-frontend/src/app/gallery/gallery.component.ts:231-233 | the inner loop adds exactly the picture's tags to the registry and changes nothing else |
| `Gallery.GalleryComponent.FilterPictures` | broz-frontend/src/app/gallery/gallery.component.ts:249-251 | the view becomes the filter applied to the catalogue; with no catalogue yet it is left as is |
| `Gallery.GalleryComponent.AddFilterTag` | broz-frontend/src/app/gallery/gallery.component.ts:239-242 | the filter gains the tag; catalogue and registry are untouched; adding a present tag changes nothing |
| `Gallery.GalleryComponent.RemoveFilterTag` | broz-frontend/src/app/gallery/gallery.component.ts:244-247 | the filter loses the tag; catalogue and registry are untouched; removing an absent tag changes nothing |
| `Gallery.GalleryComponent.GetGalleryMetadataAPI` | broz-frontend/src/app/gallery/gallery.component.ts:134-147 | an unauthenticated GET of base + "/metadata"; a snapshot refreshes the state; an error changes nothing |
| `Gallery.GalleryComponent.Complete` | broz-frontend/src/app/gallery/gallery.component.ts:156-167 | a snapshot refreshes the state and brings the success notice; an error leaves every field unchanged and brings the notice chosen by the status |
| `Gallery.GalleryComponent.PostPictureAPI` | broz-frontend/src/app/gallery/gallery.component.ts:149-173 | a POST to base + "/metadata" with the payload, JSON and Basic headers is sent iff btoa accepts the token; its outcome is settled as in Complete |
| `Gallery.GalleryComponent.PutPictureAPI` | broz-frontend/src/app/gallery/gallery.component.ts:175-199 | a PUT to base + "/metadata" with the picture, JSON and Basic headers is sent iff btoa accepts the token; its outcome is settled as in Complete |
| `Gallery.GalleryComponent.DeletePictureAPI` | broz-frontend/src/app/gallery/gallery.component.ts:201-224 | a DELETE to base + "/metadata/" + id, with no body and only the Authorization header, is sent iff btoa accepts the token; its outcome is settled as in Complete |
| `Gallery.GalleryComponent.AddPicture` | broz-frontend/src/app/gallery/gallery.component.ts:84-90 | no dialog result: no request and no change; otherwise the result without its id is POSTed |
| `Gallery.GalleryComponent.EditPicture` | broz-frontend/src/app/gallery/gallery.component.ts:110-115 | no dialog result: no request and no change; otherwise the result, id included, is PUT |
| `Gallery.GalleryComponent.DeletePicture` | broz-frontend/src/app/gallery/gallery.component.ts:122-127 | no dialog result: no request and no change; otherwise the DELETE names the result's id |

## Left out

- HTTP transport, observables and the `complete` callbacks are not modelled. Each request is a returned value and its answer is an input. The logging calls (`NGXLogger`) are left out too.
- The snack bar's action label and its 3-second duration are not modelled; only the message text is.
- The cookie lookup of `login-token` is not modelled: the token is a parameter. A missing cookie is the empty string there, and the model covers that token like any other.
- The `fullPicturesMetadata` field is not modelled. The code stores the whole response in it, but only its `pictures` member is ever read.
- A response whose body has no `pictures` array, or whose tags are not an array, is not modelled: `Snapshot` is typed.
- Angular `HttpHeaders` compare header names case-insensitively and keep insertion order. The model uses a map keyed by the exact names the code uses.
- `Decimal.IntToString` does not model JavaScript's exponent notation for magnitudes of 10^21 and more, or non-integral numbers. Ids are positions, so they are small non-negative integers.
- The login-state subscription, `onResize` / `numer_render_columns` (floating-point layout) and the template flags (`visible`, `selectable`, `removable`, `separatorKeysCodes`) are not modelled. They are presentation only.
- The dialog configuration (`minLengthName`, `maxLengthName`, `maxLengthTags`, `isPictureRegEx`, the tag list handed to the dialog) is not modelled. The dialogs are oracles, and the edit dialog's own validators are not part of this model. `GalleryDeletePictureDialogComponent` is not part of this model.
- The overview status widget and the backend packaging are not part of this model.
- Overlapping mutations are not modelled. The code has no guard against a second mutation while one is in flight, and each call here runs to completion.
- A transport failure reaches the error callback with status 0. The model covers it as `Failed(0)`, which gets the generic notice.
