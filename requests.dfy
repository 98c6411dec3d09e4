/**
 * The requests `MirrorAceApi` builds, as values: the form-encoded API calls of
 * `CreateRequest` and the multipart upload bodies of `CreateBaseUploadContent`,
 * `CreateFileUploadRequest` and `CreateRemoteFileUploadRequest`. Serialising the bodies
 * is the HTTP library's business and is not modelled; only their fields are.
 */
module Requests {
  import opened Wrappers
  import opened ResponseJson

  const ApiBase := "https://mirrorace.com/api/v1/"

  /** One part of a multipart body: `StringContent` under a name, or the chunk bytes
      (`ByteArrayContent`) under a name with a file name. */
  datatype Part =
    | StringPart(name: string, value: string)
    | BytesPart(name: string, fileName: string, bytes: seq<bv8>)

  datatype Content =
    | FormUrlEncoded(fields: seq<(string, string)>)
    | Multipart(parts: seq<Part>)

  /** A `Content-Range` header on the content, and whether it went through the library's
      header validation (`Add`) or not (`TryAddWithoutValidation`). */
  datatype RangeHeader = RangeHeader(value: string, validated: bool)

  /** A POST request; the upload endpoints are nullable `Uri`s in the negotiated variables. */
  datatype Request = Request(uri: Option<string>, content: Content, contentRange: Option<RangeHeader>)

  /** `char.IsWhiteSpace`: the Unicode White_Space characters. */
  predicate IsWhiteSpace(ch: char) {
    var u := ch as int;
    (0x09 <= u <= 0x0D) || u == 0x20 || u == 0x85 || u == 0xA0 || u == 0x1680
    || (0x2000 <= u <= 0x200A) || u == 0x2028 || u == 0x2029 || u == 0x202F
    || u == 0x205F || u == 0x3000
  }

  /** `string.IsNullOrWhiteSpace` */
  predicate IsNullOrWhiteSpace(s: Option<string>) {
    s.None? || forall k :: 0 <= k < |s.value| ==> IsWhiteSpace(s.value[k])
  }

  function MirrorParts(mirrors: seq<string>): seq<Part> {
    seq(|mirrors|, k requires 0 <= k < |mirrors| => StringPart("mirrors[]", mirrors[k]))
  }

  /** The fields every upload request starts with: key, token, tracker and upload key (each
      of the latter two "" when null), the password only when it is not null or white space,
      then one `mirrors[]` field per mirror in the caller's order. */
  function BaseUploadParts(apiKey: string, apiToken: string, vars: UploadVariables,
                           mirrors: seq<string>, password: Option<string>): seq<Part>
  {
    [StringPart("api_key", apiKey), StringPart("api_token", apiToken),
     StringPart("cTracker", vars.cTracker.GetOr("")), StringPart("upload_key", vars.uploadKey.GetOr(""))]
    + (if IsNullOrWhiteSpace(password) then [] else [StringPart("file_password", password.value)])
    + MirrorParts(mirrors)
  }

  function FileUploadRequest(apiKey: string, apiToken: string, vars: UploadVariables, mirrors: seq<string>,
                             chunk: seq<bv8>, fileName: string, password: Option<string>): Request
  {
    Request(vars.serverFile,
            Multipart(BaseUploadParts(apiKey, apiToken, vars, mirrors, password) + [BytesPart("files[]", fileName, chunk)]),
            None)
  }

  function RemoteUploadRequest(apiKey: string, apiToken: string, vars: UploadVariables, mirrors: seq<string>,
                               url: string, password: Option<string>): Request
  {
    Request(vars.serverRemote,
            Multipart(BaseUploadParts(apiKey, apiToken, vars, mirrors, password) + [StringPart("url", url)]),
            None)
  }

  function FormRequest(apiKey: string, apiToken: string, path: string, extra: seq<(string, string)>): Request {
    Request(Some(ApiBase + path), FormUrlEncoded([("api_key", apiKey), ("api_token", apiToken)] + extra), None)
  }

  /** `string.Join(',', slugs)` */
  function JoinComma(slugs: seq<string>): string {
    if slugs == [] then ""
    else if |slugs| == 1 then slugs[0]
    else slugs[0] + "," + JoinComma(slugs[1..])
  }

  /** No key occurs twice among the fields. */
  predicate DistinctKeys(fields: seq<(string, string)>) {
    forall j, k :: 0 <= j < k < |fields| ==> fields[j].0 != fields[k].0
  }

  function ValueIfNamed(part: Part, name: string): seq<string> {
    if part.StringPart? && part.name == name then [part.value] else []
  }

  /** The text values of the string parts named `name`, in body order: what the server
      reads for that field. */
  function ValuesOf(parts: seq<Part>, name: string): seq<string> {
    if parts == [] then [] else ValueIfNamed(parts[0], name) + ValuesOf(parts[1..], name)
  }

  lemma {:induction false} ValuesOfAppend(p: seq<Part>, q: seq<Part>, name: string)
    ensures ValuesOf(p + q, name) == ValuesOf(p, name) + ValuesOf(q, name)
  {
    if p == [] {
      assert p + q == q;
    } else {
      var pq := p + q;
      assert pq[0] == p[0];
      assert pq[1..] == p[1..] + q;
      ValuesOfAppend(p[1..], q, name);
      calc {
        ValuesOf(pq, name);
        ValueIfNamed(p[0], name) + ValuesOf(p[1..] + q, name);
        ValueIfNamed(p[0], name) + (ValuesOf(p[1..], name) + ValuesOf(q, name));
      }
    }
  }

  lemma {:induction false} ValuesOfMirrors(mirrors: seq<string>, name: string)
    ensures ValuesOf(MirrorParts(mirrors), name) == if name == "mirrors[]" then mirrors else []
  {
    if mirrors != [] {
      ValuesOfMirrors(mirrors[1..], name);
      assert MirrorParts(mirrors) == [StringPart("mirrors[]", mirrors[0])] + MirrorParts(mirrors[1..]);
      ValuesOfCons(StringPart("mirrors[]", mirrors[0]), MirrorParts(mirrors[1..]), name);
    }
  }

  lemma ValuesOfSingle(part: Part, name: string)
    ensures ValuesOf([part], name) == ValueIfNamed(part, name)
  {
    assert [part][1..] == [];
  }

  /** The values of one field of an upload body, taken part by part. */
  lemma BaseUploadValues(apiKey: string, apiToken: string, vars: UploadVariables,
                         mirrors: seq<string>, password: Option<string>, name: string)
    ensures ValuesOf(BaseUploadParts(apiKey, apiToken, vars, mirrors, password), name)
         == ValueIfNamed(StringPart("api_key", apiKey), name)
            + ValueIfNamed(StringPart("api_token", apiToken), name)
            + ValueIfNamed(StringPart("cTracker", vars.cTracker.GetOr("")), name)
            + ValueIfNamed(StringPart("upload_key", vars.uploadKey.GetOr("")), name)
            + (if IsNullOrWhiteSpace(password) || name != "file_password" then [] else [password.value])
            + (if name == "mirrors[]" then mirrors else [])
  {
    var f0, f1 := StringPart("api_key", apiKey), StringPart("api_token", apiToken);
    var f2 := StringPart("cTracker", vars.cTracker.GetOr(""));
    var f3 := StringPart("upload_key", vars.uploadKey.GetOr(""));
    var blank := IsNullOrWhiteSpace(password);
    var pw: seq<Part> := if blank then [] else [StringPart("file_password", password.value)];
    var ms := MirrorParts(mirrors);
    var pv := if blank || name != "file_password" then [] else [password.value];
    assert BaseUploadParts(apiKey, apiToken, vars, mirrors, password) == [f0] + ([f1] + ([f2] + ([f3] + (pw + ms))));
    calc {
      ValuesOf([f0] + ([f1] + ([f2] + ([f3] + (pw + ms)))), name);
      { ValuesOfCons(f0, [f1] + ([f2] + ([f3] + (pw + ms))), name); }
      ValueIfNamed(f0, name) + ValuesOf([f1] + ([f2] + ([f3] + (pw + ms))), name);
      { ValuesOfCons(f1, [f2] + ([f3] + (pw + ms)), name); }
      ValueIfNamed(f0, name) + (ValueIfNamed(f1, name) + ValuesOf([f2] + ([f3] + (pw + ms)), name));
      { ValuesOfCons(f2, [f3] + (pw + ms), name); }
      ValueIfNamed(f0, name) + (ValueIfNamed(f1, name) + (ValueIfNamed(f2, name) + ValuesOf([f3] + (pw + ms), name)));
      { ValuesOfCons(f3, pw + ms, name); }
      ValueIfNamed(f0, name) + (ValueIfNamed(f1, name) + (ValueIfNamed(f2, name) + (ValueIfNamed(f3, name)
        + ValuesOf(pw + ms, name))));
      { ValuesOfAppend(pw, ms, name);
        if !blank { ValuesOfSingle(pw[0], name); }
        ValuesOfMirrors(mirrors, name); }
      ValueIfNamed(f0, name) + (ValueIfNamed(f1, name) + (ValueIfNamed(f2, name) + (ValueIfNamed(f3, name)
        + (pv + (if name == "mirrors[]" then mirrors else [])))));
    }
  }

  lemma ValuesOfCons(part: Part, rest: seq<Part>, name: string)
    ensures ValuesOf([part] + rest, name) == ValueIfNamed(part, name) + ValuesOf(rest, name)
  {
    assert ([part] + rest)[1..] == rest;
  }

  /** What the server reads from an upload body: one value each for key, token, tracker and
      upload key, the password only when it is set, and the mirrors in the caller's order. */
  lemma BaseUploadFields(apiKey: string, apiToken: string, vars: UploadVariables,
                         mirrors: seq<string>, password: Option<string>)
    ensures var parts := BaseUploadParts(apiKey, apiToken, vars, mirrors, password);
      && ValuesOf(parts, "api_key") == [apiKey]
      && ValuesOf(parts, "api_token") == [apiToken]
      && ValuesOf(parts, "cTracker") == [vars.cTracker.GetOr("")]
      && ValuesOf(parts, "upload_key") == [vars.uploadKey.GetOr("")]
      && ValuesOf(parts, "file_password") == (if IsNullOrWhiteSpace(password) then [] else [password.value])
      && ValuesOf(parts, "mirrors[]") == mirrors
  {
    BaseUploadValues(apiKey, apiToken, vars, mirrors, password, "api_key");
    BaseUploadValues(apiKey, apiToken, vars, mirrors, password, "api_token");
    BaseUploadValues(apiKey, apiToken, vars, mirrors, password, "cTracker");
    BaseUploadValues(apiKey, apiToken, vars, mirrors, password, "upload_key");
    BaseUploadValues(apiKey, apiToken, vars, mirrors, password, "file_password");
    BaseUploadValues(apiKey, apiToken, vars, mirrors, password, "mirrors[]");
  }

  /** A file upload body reads as the upload fields: the chunk is a file part, which
      carries no text value. */
  lemma FileUploadFields(apiKey: string, apiToken: string, vars: UploadVariables, mirrors: seq<string>,
                         chunk: seq<bv8>, fileName: string, password: Option<string>, name: string)
    ensures ValuesOf(FileUploadRequest(apiKey, apiToken, vars, mirrors, chunk, fileName, password).content.parts, name)
         == ValuesOf(BaseUploadParts(apiKey, apiToken, vars, mirrors, password), name)
  {
    var base := BaseUploadParts(apiKey, apiToken, vars, mirrors, password);
    var file := BytesPart("files[]", fileName, chunk);
    ValuesOfAppend(base, [file], name);
    ValuesOfSingle(file, name);
    assert ValuesOf(base, name) + [] == ValuesOf(base, name);
  }

  /** A remote upload body reads as the upload fields followed by the one `url` value. */
  lemma RemoteUploadFields(apiKey: string, apiToken: string, vars: UploadVariables, mirrors: seq<string>,
                           url: string, password: Option<string>, name: string)
    ensures ValuesOf(RemoteUploadRequest(apiKey, apiToken, vars, mirrors, url, password).content.parts, name)
         == ValuesOf(BaseUploadParts(apiKey, apiToken, vars, mirrors, password), name)
            + (if name == "url" then [url] else [])
  {
    var base := BaseUploadParts(apiKey, apiToken, vars, mirrors, password);
    ValuesOfAppend(base, [StringPart("url", url)], name);
    ValuesOfSingle(StringPart("url", url), name);
  }
}
