/** The external image host behind `uploadOnCloudinary` and `deleteOnCloudinary`. What the
    host answers is not decided here: each call takes the host's answer as a parameter. */
module AssetStore {
  import opened Common

  /** `{url, public_id}` as a user's avatar or cover image or a post's image holds it; the
      schemas default both to "", which the controllers read as "no asset yet". */
  datatype Asset = Asset(url: string, publicId: string)

  const NoAsset: Asset := Asset("", "")

  /** A request sent to the host. */
  datatype AssetCall = DestroyCall(publicId: string) | UploadCall(localPath: string)

  /** `req.file?.path`: the multipart upload's local path is present and non-empty. */
  predicate HasPath(file: Option<string>)
  {
    file.Some? && file.value != ""
  }

  class AssetHost {
    /** Public ids of the assets the host holds. */
    var stored: set<string>
    /** Every request sent to the host, oldest first. */
    var calls: seq<AssetCall>

    constructor (initial: set<string>)
      ensures stored == initial && calls == []
    {
      stored := initial;
      calls := [];
    }

    /** `uploadOnCloudinary`: an empty path is answered with null and not sent; otherwise the
        host's `response` (None when the upload throws) is returned. */
    method Upload(localPath: string, response: Option<Asset>) returns (r: Option<Asset>)
      modifies this
      ensures r == if localPath == "" then None else response
      ensures calls == old(calls) + if localPath == "" then [] else [UploadCall(localPath)]
      ensures stored == if r.Some? then old(stored) + {r.value.publicId} else old(stored)
    {
      if localPath == "" {
        r := None;
      } else {
        calls := calls + [UploadCall(localPath)];
        r := response;
        if r.Some? {
          stored := stored + {r.value.publicId};
        }
      }
    }

    /** `deleteOnCloudinary`: an empty id is not sent; a destroy the host fails
        (`succeeds` false) is swallowed and the asset stays. */
    method Delete(publicId: string, succeeds: bool)
      modifies this
      ensures calls == old(calls) + if publicId == "" then [] else [DestroyCall(publicId)]
      ensures stored == if publicId != "" && succeeds then old(stored) - {publicId} else old(stored)
    {
      if publicId != "" {
        calls := calls + [DestroyCall(publicId)];
        if succeeds {
          stored := stored - {publicId};
        }
      }
    }
  }
}
