/** The clients router (backend/src/routes/clients.js): list newest first,
    create with an uploaded image, and delete by id. */
module Clients {
  import opened Wrappers
  import opened Strings
  import opened Http
  import opened Crop
  import Listing

  /** A stored client testimonial. */
  datatype Client = Client(
    id: nat, name: string, designation: string, description: string,
    imageUrl: string, createdAt: int)

  /** The multipart text fields of a create request. */
  datatype ClientForm = ClientForm(
    name: Option<string>, designation: Option<string>, description: Option<string>)

  /** A create request: the authentication middleware's verdict, the text
      fields, the file multer stages (if any), and the request's protocol and
      `Host` header. */
  datatype CreateRequest = CreateRequest(
    authorized: bool, form: ClientForm, upload: Option<UploadedFile>,
    protocol: string, host: Option<string>)

  /** The JSON bodies this router sends. */
  datatype ClientReply =
    | Unauthorized
    | ValidationErrors(errors: seq<FieldError>)
    | ClientJson(client: Client)
    | ErrorJson(message: string)
    | DeletedJson(success: bool)
    | ClientList(clients: seq<Client>)

  const ClientWidth := 300
  const ClientHeight := 300

  /** The checks `body(f).notEmpty()` for the three text fields, in order:
      one entry per field that is missing or empty. */
  function FormErrors(form: ClientForm): (errs: seq<FieldError>)
    ensures errs == [] <==> NotEmpty(form.name) && NotEmpty(form.designation) &&
                              NotEmpty(form.description)
    ensures FieldError("name") in errs <==> !NotEmpty(form.name)
    ensures FieldError("designation") in errs <==> !NotEmpty(form.designation)
    ensures FieldError("description") in errs <==> !NotEmpty(form.description)
  {
    (if NotEmpty(form.name) then [] else [FieldError("name")]) +
    (if NotEmpty(form.designation) then [] else [FieldError("designation")]) +
    (if NotEmpty(form.description) then [] else [FieldError("description")])
  }

  /** `(FILE_BASE_URL || protocol + "://" + (host || "")).replace(/\/+$/, "")`. */
  function ResolveBase(fileBaseUrl: Option<string>, protocol: string, host: Option<string>): (b: string)
    ensures b == [] || b[|b| - 1] != '/'
  {
    var configured := fileBaseUrl.GetOr("");
    var raw := if configured != "" then configured else protocol + "://" + host.GetOr("");
    StripTrailingSlashes(raw)
  }

  /** `imageUrl = base + publicPath`. */
  function ImageUrl(base: string, publicPath: string): string {
    base + publicPath
  }

  /** Multer's effect: the upload, when there is one, is on disk at its path. */
  function Staged(files: map<string, Image>, upload: Option<UploadedFile>): map<string, Image> {
    if upload.Some? then files[upload.value.path := upload.value.image] else files
  }

  /** The client table: records in insertion order and the next id to hand out. */
  class ClientStore {
    var rows: seq<Client>
    var nextId: nat

    /** Every stored id was handed out before, and an id identifies its record. */
    ghost predicate Valid()
      reads this
    {
      IdsBelow(rows, nextId)
    }

    constructor ()
      ensures Valid() && rows == [] && nextId == 0
    {
      rows := [];
      nextId := 0;
    }

    /** `GET /`: every client, newest first. */
    function List(): (r: Response<ClientReply>)
      reads this
      ensures r.status == 200 && r.body.ClientList?
      ensures Listing.NewestFirst(r.body.clients, (c: Client) => c.createdAt)
      ensures multiset(r.body.clients) == multiset(rows)
    {
      Response(200, ClientList(Listing.SortNewestFirst(rows, (c: Client) => c.createdAt)))
    }

    /** `POST /`: authentication, multer staging, field validation, then the
        crop, URL and insert of `CropAndInsert`. `fileBaseUrl` is
        `FILE_BASE_URL`; the other parameters are passed on. */
    method Create(disk: Disk, req: CreateRequest, fileBaseUrl: Option<string>,
                  resizeError: Option<string>, unlinkOk: bool, insertError: Option<string>,
                  now: int)
      returns (resp: Response<ClientReply>)
      requires Valid()
      modifies this, disk
      ensures Valid()
      ensures nextId == old(nextId) + (if |rows| > |old(rows)| then 1 else 0)
      ensures !req.authorized ==>
                resp == Response(401, Unauthorized) &&
                rows == old(rows) && nextId == old(nextId) && disk.files == old(disk.files)
      ensures req.authorized && FormErrors(req.form) != [] ==>
                resp == Response(400, ValidationErrors(FormErrors(req.form))) &&
                rows == old(rows) && nextId == old(nextId) && disk.files == Staged(old(disk.files), req.upload)
      ensures req.authorized && FormErrors(req.form) == [] ==>
                CropAndInserted(old(rows), old(nextId), rows, Staged(old(disk.files), req.upload),
                                disk.files, req.form, req.upload,
                                ResolveBase(fileBaseUrl, req.protocol, req.host),
                                resizeError, unlinkOk, insertError, now, resp)
    {
      if !req.authorized {
        return Response(401, Unauthorized);
      }
      if req.upload.Some? {
        disk.files := disk.files[req.upload.value.path := req.upload.value.image];
      }
      var errors := FormErrors(req.form);
      if errors != [] {
        return Response(400, ValidationErrors(errors));
      }
      var base := ResolveBase(fileBaseUrl, req.protocol, req.host);
      resp := CropAndInsert(disk, req.form, req.upload, base, resizeError, unlinkOk,
                            insertError, now);
    }

    /** The part of `POST /` after validation: `cropAndSave(req.file, 300x300)`,
        `imageUrl = base + publicPath`, and `Client.create`. A thrown error
        goes to the error-handling middleware. */
    method CropAndInsert(disk: Disk, form: ClientForm, upload: Option<UploadedFile>,
                         base: string, resizeError: Option<string>, unlinkOk: bool,
                         insertError: Option<string>, now: int)
      returns (resp: Response<ClientReply>)
      requires Valid() && FormErrors(form) == []
      modifies this, disk
      ensures Valid()
      ensures nextId == old(nextId) + (if |rows| > |old(rows)| then 1 else 0)
      ensures CropAndInserted(old(rows), old(nextId), rows, old(disk.files), disk.files, form,
                              upload, base, resizeError, unlinkOk, insertError, now, resp)
    {
      var publicPath := CropAndSave(disk, upload, ClientWidth, ClientHeight,
                                    resizeError, unlinkOk);
      if publicPath.Failure? {
        var e := HandleError(Error(None, Some(publicPath.error)));
        return Response(e.status, ErrorJson(e.body));
      }
      var imageUrl := base + publicPath.value;
      if insertError.Some? {
        var e := HandleError(Error(None, insertError));
        return Response(e.status, ErrorJson(e.body));
      }
      var client := Client(nextId, form.name.value, form.designation.value,
                           form.description.value, imageUrl, now);
      AppendFreshId(rows, nextId, client);
      rows := rows + [client];
      nextId := nextId + 1;
      resp := Response(201, ClientJson(client));
    }

    /** `DELETE /:id`: removes the record with that id, if any, and answers
        `{success: true}` either way. */
    method Delete(authorized: bool, id: nat) returns (resp: Response<ClientReply>)
      requires Valid()
      modifies this
      ensures Valid() && nextId == old(nextId)
      ensures !authorized ==> resp == Response(401, Unauthorized) && rows == old(rows)
      ensures authorized ==>
                resp == Response(200, DeletedJson(true)) && rows == WithoutId(old(rows), id) &&
                |rows| + 1 >= |old(rows)|
    {
      if !authorized {
        return Response(401, Unauthorized);
      }
      WithoutIdKeepsIds(rows, nextId, id);
      DeleteRemovesAtMostOne(rows, nextId, id);
      rows := WithoutId(rows, id);
      resp := Response(200, DeletedJson(true));
    }
  }

  /** Every id in `rows` is below `next`, and no two records share an id. */
  ghost predicate IdsBelow(rows: seq<Client>, next: nat) {
    (forall i :: 0 <= i < |rows| ==> rows[i].id < next) &&
    (forall i, j :: 0 <= i < j < |rows| ==> rows[i].id != rows[j].id)
  }

  /** Appending a record with the next id keeps the ids unique. */
  lemma AppendFreshId(rows: seq<Client>, next: nat, c: Client)
    requires IdsBelow(rows, next) && c.id == next
    ensures IdsBelow(rows + [c], next + 1)
  {
  }

  /** Removing the records with one id keeps the ids unique. */
  lemma {:induction false} WithoutIdKeepsIds(rows: seq<Client>, next: nat, id: nat)
    requires IdsBelow(rows, next)
    ensures IdsBelow(WithoutId(rows, id), next)
  {
    if rows != [] {
      var rest := rows[1..];
      TailKeepsIds(rows, next);
      WithoutIdKeepsIds(rest, next, id);
      if rows[0].id != id {
        var w := WithoutId(rest, id);
        forall k | 0 <= k < |w| ensures w[k].id != rows[0].id {
          assert w[k] in rest;
          var j :| 0 <= j < |rest| && rest[j] == w[k];
          assert rows[j + 1] == w[k];
        }
        ConsKeepsIds(rows[0], w, next);
      }
    }
  }

  lemma TailKeepsIds(rows: seq<Client>, next: nat)
    requires rows != [] && IdsBelow(rows, next)
    ensures IdsBelow(rows[1..], next)
  {
    assert forall i :: 0 <= i < |rows| - 1 ==> rows[1..][i] == rows[i + 1];
  }

  lemma ConsKeepsIds(c: Client, w: seq<Client>, next: nat)
    requires IdsBelow(w, next) && c.id < next
    requires forall k :: 0 <= k < |w| ==> w[k].id != c.id
    ensures IdsBelow([c] + w, next)
  {
    assert forall i :: 1 <= i < |w| + 1 ==> ([c] + w)[i] == w[i - 1];
  }

  /** With unique ids, `findByIdAndDelete` removes at most one record. */
  lemma {:induction false} DeleteRemovesAtMostOne(rows: seq<Client>, next: nat, id: nat)
    requires IdsBelow(rows, next)
    ensures |WithoutId(rows, id)| + 1 >= |rows|
  {
    if rows != [] {
      var rest := rows[1..];
      TailKeepsIds(rows, next);
      if rows[0].id == id {
        assert forall i :: 0 <= i < |rest| ==> rest[i].id != id by {
          assert forall i :: 0 <= i < |rest| ==> rest[i] == rows[i + 1];
        }
      } else {
        DeleteRemovesAtMostOne(rest, next, id);
      }
    }
  }

  /** What the crop-and-insert step does to the table, the files and the
      response: no file gives 500 "No file provided"; a failed resize gives the
      handler's response for the resize error and writes nothing; otherwise
      the 300x300 output is written, the staged file unlinked best-effort, and
      either the new client is appended and answered with 201, or the failed
      insert is answered through the error handler. */
  ghost predicate CropAndInserted(rows0: seq<Client>, id: nat, rows: seq<Client>,
                                  files0: map<string, Image>, files: map<string, Image>,
                                  form: ClientForm, upload: Option<UploadedFile>, base: string,
                                  resizeError: Option<string>, unlinkOk: bool,
                                  insertError: Option<string>, now: int,
                                  resp: Response<ClientReply>)
    requires FormErrors(form) == []
  {
    if upload.None? then
      resp == Response(500, ErrorJson(NoFileMessage)) && rows == rows0 && files == files0
    else if resizeError.Some? then
      var e := HandleError(Error(None, resizeError));
      resp == Response(e.status, ErrorJson(e.body)) && rows == rows0 && files == files0
    else
      var f := upload.value;
      files == AfterCrop(files0, f, ClientWidth, ClientHeight, unlinkOk) &&
      var c := Client(id, form.name.value, form.designation.value, form.description.value,
                      ImageUrl(base, PublicPath(f)), now);
      if insertError.None? then
        rows == rows0 + [c] && resp == Response(201, ClientJson(c))
      else
        var e := HandleError(Error(None, insertError));
        rows == rows0 && resp == Response(e.status, ErrorJson(e.body))
  }

  /** The table without the record that has `id`: no record keeps that id,
      every other record stays, and a table without that id is unchanged. */
  function WithoutId(rows: seq<Client>, id: nat): (r: seq<Client>)
    ensures forall c :: c in r <==> c in rows && c.id != id
    ensures |r| <= |rows|
    ensures (forall i :: 0 <= i < |rows| ==> rows[i].id != id) ==> r == rows
  {
    if rows == [] then []
    else if rows[0].id == id then WithoutId(rows[1..], id)
    else [rows[0]] + WithoutId(rows[1..], id)
  }

  // ---------------------------------------------------------------------------
  // Properties

  /** Deleting twice is deleting once. */
  lemma DeleteIdempotent(rows: seq<Client>, id: nat)
    ensures WithoutId(WithoutId(rows, id), id) == WithoutId(rows, id)
  {
  }

  /** A configured `FILE_BASE_URL` decides the base; the request does not. */
  lemma ConfiguredBaseWins(url: string, p1: string, h1: Option<string>, p2: string, h2: Option<string>)
    requires url != ""
    ensures ResolveBase(Some(url), p1, h1) == ResolveBase(Some(url), p2, h2) ==
              StripTrailingSlashes(url)
  {
  }

  /** The stored URL is the base without trailing slashes followed by the
      public path; when that base is non-empty, exactly one '/' separates it
      from "uploads". */
  lemma ImageUrlShape(fileBaseUrl: Option<string>, protocol: string, host: Option<string>,
                      f: UploadedFile)
    ensures var b := ResolveBase(fileBaseUrl, protocol, host);
      var u := ImageUrl(b, PublicPath(f));
      StartsWith(u, b) && u[|b|..] == PublicPath(f) &&
      (b == "" || b[|b| - 1] != '/') &&
      u[|b|..|b| + |UploadsPrefix|] == UploadsPrefix
  {
    var b := ResolveBase(fileBaseUrl, protocol, host);
    var pp := PublicPath(f);
    var u := b + pp;
    assert u[..|b|] == b;
    assert u[|b|..] == pp;
    assert u[|b|..|b| + |UploadsPrefix|] == pp[..|UploadsPrefix|];
  }

  /** Without `FILE_BASE_URL`, a request with a `Host` header gives the base
      `protocol://host` (less trailing slashes), whatever `FILE_BASE_URL`'s
      empty value was. */
  lemma RequestDerivedBase(fileBaseUrl: Option<string>, protocol: string, host: string)
    requires fileBaseUrl.None? || fileBaseUrl.value == ""
    requires host != "" && host[0] != '/'
    ensures StartsWith(ResolveBase(fileBaseUrl, protocol, Some(host)), protocol + "://")
  {
    var raw := protocol + "://" + host;
    var b := StripTrailingSlashes(raw);
    assert raw[|protocol| + 3] == host[0];
    StripKeepsNonSlashPrefix(raw, |protocol| + 3);
    assert b[..|protocol| + 3] == raw[..|protocol| + 3] == protocol + "://";
  }

  /** Without `FILE_BASE_URL` and without a `Host` header, the base collapses to
      "http:" and the stored URL is "http:/uploads/...", which is not absolute. */
  lemma MissingHostBase()
    ensures ResolveBase(None, "http", None) == "http:"
  {
    assert "http" + "://" + "" == "http://";
    StripTrailingSlashesUnique("http://", "http:");
  }

  /** Stripping trailing slashes never removes the character at `k` or any
      before it when `raw[k]` is not '/'. */
  lemma StripKeepsNonSlashPrefix(raw: string, k: nat)
    requires k < |raw| && raw[k] != '/'
    ensures |StripTrailingSlashes(raw)| > k
  {
  }
}
