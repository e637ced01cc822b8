/** The photo-storage client: object-name sanitisation, base-URL
    normalisation, configuration validation, URL construction, and the
    all-or-nothing batch upload. The HTTP exchange itself is an oracle. */
module StorageService {
  import opened Wrappers
  import opened Entities
  import opened JavaText

  /** An uploaded multipart file: its client-side name (nullable) and its size. */
  datatype Upload = Upload(originalFilename: Option<string>, size: nat)

  /** `file != null && !file.isEmpty()`. */
  predicate IsUsable(f: Option<Upload>) {
    f.Some? && f.value.size > 0
  }

  /** The `supabase.url`, `supabase.bucket` and `supabase.apiKey` properties
      (each defaults to the empty string). */
  datatype StorageConfig = StorageConfig(url: string, bucket: string, apiKey: string)

  /** Characters the object name keeps: `[a-zA-Z0-9.-]`. */
  predicate IsObjectNameChar(c: char) {
    ('a' <= c <= 'z') || ('A' <= c <= 'Z') || ('0' <= c <= '9') || c == '.' || c == '-'
  }

  /** `replaceAll("[^a-zA-Z0-9\\.\\-]", "_")`. */
  function Sanitize(s: string): (r: string)
    ensures |r| == |s|
    ensures forall i :: 0 <= i < |s| ==> r[i] == (if IsObjectNameChar(s[i]) then s[i] else '_')
  {
    if |s| == 0 then "" else [if IsObjectNameChar(s[0]) then s[0] else '_'] + Sanitize(s[1..])
  }

  /** Sanitising preserves length, leaves only allowed characters and '_',
      keeps every allowed one, and a second pass changes nothing. */
  lemma SanitizeFacts(s: string)
    ensures |Sanitize(s)| == |s|
    ensures forall i :: 0 <= i < |s| ==> IsObjectNameChar(Sanitize(s)[i]) || Sanitize(s)[i] == '_'
    ensures forall i :: 0 <= i < |s| && IsObjectNameChar(s[i]) ==> Sanitize(s)[i] == s[i]
    ensures Sanitize(Sanitize(s)) == Sanitize(s)
  {
  }

  const ObjectPrefix: string := "trips/"
  const DefaultPhotoName: string := "photo"

  /** The name part of an object: the trimmed file name, or "photo" when the
      name has no text, sanitised. */
  function ObjectFileName(originalFilename: Option<string>): (r: string)
    ensures originalFilename.None? || !HasText(originalFilename.value) ==> r == Sanitize(DefaultPhotoName)
    ensures originalFilename.Some? && HasText(originalFilename.value) ==>
              r == Sanitize(Trim(originalFilename.value)) && |r| == |Trim(originalFilename.value)|
    ensures forall i :: 0 <= i < |r| ==> IsObjectNameChar(r[i]) || r[i] == '_'
  {
    var name := if originalFilename.Some? && HasText(originalFilename.value) then Trim(originalFilename.value)
                else DefaultPhotoName;
    SanitizeFacts(name);
    Sanitize(name)
  }

  /** `buildObjectName`: "trips/" + uuid + "-" + the sanitised name. */
  function BuildObjectName(originalFilename: Option<string>, uuid: string): (r: string)
    // the object sits under "trips/" and starts with the uuid and a dash
    ensures |r| > |ObjectPrefix| + |uuid|
    ensures r[..|ObjectPrefix| + |uuid| + 1] == ObjectPrefix + uuid + "-"
    // after the uuid only name characters and '_' follow: no '/' opens a sub-folder
    ensures forall i :: |ObjectPrefix| + |uuid| + 1 <= i < |r| ==> IsObjectNameChar(r[i]) || r[i] == '_'
    // and what follows the dash is the file's object name
    ensures r[|ObjectPrefix| + |uuid| + 1..] == ObjectFileName(originalFilename)
  {
    var head := ObjectPrefix + uuid + "-";
    var name := ObjectFileName(originalFilename);
    NameCharsAfter(head, name);
    head + name
  }

  /** Appending a sanitised name keeps the head and adds only name characters and '_'. */
  lemma NameCharsAfter(head: string, name: string)
    requires forall i :: 0 <= i < |name| ==> IsObjectNameChar(name[i]) || name[i] == '_'
    ensures (head + name)[..|head|] == head
    ensures forall i :: |head| <= i < |head + name| ==> IsObjectNameChar((head + name)[i]) || (head + name)[i] == '_'
  {
    forall i | |head| <= i < |head + name|
      ensures IsObjectNameChar((head + name)[i]) || (head + name)[i] == '_'
    {
      assert (head + name)[i] == name[i - |head|];
    }
  }

  /** Names built with uuids of one length are equal only when the uuids and
      the file-name parts are: the uuid is what tells two objects apart. */
  lemma ObjectNameDistinguishesUuids(n1: Option<string>, n2: Option<string>, u1: string, u2: string)
    requires |u1| == |u2|
    requires BuildObjectName(n1, u1) == BuildObjectName(n2, u2)
    ensures u1 == u2 && ObjectFileName(n1) == ObjectFileName(n2)
  {
    var h1 := ObjectPrefix + u1 + "-";
    var h2 := ObjectPrefix + u2 + "-";
    var a := BuildObjectName(n1, u1);
    assert a == h1 + ObjectFileName(n1);
    assert a == h2 + ObjectFileName(n2);
    assert h1 == a[..|h1|] == h2;
    assert ObjectFileName(n1) == a[|h1|..] == ObjectFileName(n2);
    assert u1 == h1[|ObjectPrefix|..|ObjectPrefix| + |u1|];
    assert u2 == h2[|ObjectPrefix|..|ObjectPrefix| + |u2|];
  }

  /** `validateConfiguration`: url, bucket and key must all have text. */
  predicate ConfigurationValid(cfg: StorageConfig) {
    HasText(cfg.url) && HasText(cfg.bucket) && HasText(cfg.apiKey)
  }

  /** `normalizeBaseUrl`: trim, then drop one trailing '/'. */
  function NormalizeBaseUrl(url: string): (r: string)
    // exactly one trailing '/' is removed, if there is one, and nothing else
    ensures Trim(url) == (if EndsWith(Trim(url), '/') then r + "/" else r)
  {
    var base := Trim(url);
    if EndsWith(base, '/') then base[..|base| - 1] else base
  }

  /** Only one '/' is stripped: a URL ending in "//" keeps one. */
  lemma NormalizeStripsOneSlash(url: string)
    requires |Trim(url)| >= 2 && Trim(url)[|Trim(url)| - 1] == '/' && Trim(url)[|Trim(url)| - 2] == '/'
    ensures EndsWith(NormalizeBaseUrl(url), '/')
    ensures Trim(url) == NormalizeBaseUrl(url) + "/"
  {
  }

  const ObjectPath: string := "/storage/v1/object/"
  const PublicSegment: string := "public/"

  /** Where the bytes are posted. */
  function UploadUrl(cfg: StorageConfig, objectName: string): string {
    NormalizeBaseUrl(cfg.url) + ObjectPath + cfg.bucket + "/" + objectName
  }

  /** Where the object is served from afterwards. */
  function PublicUrl(cfg: StorageConfig, objectName: string): string {
    NormalizeBaseUrl(cfg.url) + ObjectPath + PublicSegment + cfg.bucket + "/" + objectName
  }

  /** The public URL is the upload URL with "public/" inserted after the object path. */
  lemma PublicUrlInsertsPublicSegment(cfg: StorageConfig, objectName: string)
    ensures var prefix := NormalizeBaseUrl(cfg.url) + ObjectPath;
            var rest := cfg.bucket + "/" + objectName;
            && UploadUrl(cfg, objectName) == prefix + rest
            && PublicUrl(cfg, objectName) == prefix + PublicSegment + rest
            && |PublicUrl(cfg, objectName)| == |UploadUrl(cfg, objectName)| + |PublicSegment|
  {
  }

  /** `uploadPhoto`: configuration is checked first; the object is posted to the
      upload URL (`post` says whether the exchange succeeded with a 2xx status)
      and the public URL is returned. `uuid` stands for `UUID.randomUUID()`. */
  function UploadPhoto(cfg: StorageConfig, file: Upload, uuid: string, post: string -> bool): (r: Result<string, Error>)
    ensures !ConfigurationValid(cfg) ==> r == Failure(StorageNotConfigured)
    ensures r.Success? <==> ConfigurationValid(cfg) && post(UploadUrl(cfg, BuildObjectName(file.originalFilename, uuid)))
    ensures r.Success? ==> r.value == PublicUrl(cfg, BuildObjectName(file.originalFilename, uuid))
    ensures r.Failure? ==> r.error in {StorageNotConfigured, UploadFailed}
  {
    if !ConfigurationValid(cfg) then Failure(StorageNotConfigured)
    else
      var objectName := BuildObjectName(file.originalFilename, uuid);
      if post(UploadUrl(cfg, objectName)) then Success(PublicUrl(cfg, objectName))
      else Failure(UploadFailed)
  }

  /** The files an upload batch actually sends: null and empty entries dropped, order kept. */
  function UsableFiles(fs: seq<Option<Upload>>): (r: seq<Upload>)
    ensures |r| <= |fs|
    ensures forall k :: 0 <= k < |r| ==> r[k].size > 0 && Some(r[k]) in fs
  {
    if |fs| == 0 then []
    else (if IsUsable(fs[0]) then [fs[0].value] else []) + UsableFiles(fs[1..])
  }

  lemma {:induction false} UsableFilesAppend(a: seq<Option<Upload>>, b: seq<Option<Upload>>)
    ensures UsableFiles(a + b) == UsableFiles(a) + UsableFiles(b)
  {
    if |a| > 0 {
      UsableFilesAppend(a[1..], b);
      assert (a + b)[1..] == a[1..] + b;
    } else {
      assert a + b == b;
    }
  }

  /** The storage call of one upload. Its number counts the uploads made
      before it while serving the same request: it stands for the random UUID
      that upload draws, so two uploads of one request are told apart even
      when their files are alike. */
  type Uploader = (nat, Upload) -> Result<string, Error>

  /** The uploader the service uses: `uploadPhoto` with the `k`-th drawn uuid. */
  function StorageUploader(cfg: StorageConfig, uuids: nat -> string, post: string -> bool): Uploader {
    (k: nat, f: Upload) => UploadPhoto(cfg, f, uuids(k), post)
  }

  /** Among the first `n` uploads of a request, different uploads never
      publish the same URL. */
  ghost predicate FreshUrlsBelow(uploader: Uploader, n: nat) {
    forall i: nat, j: nat, f: Upload, g: Upload ::
      i < n && j < n && i != j && uploader(i, f).Success? && uploader(j, g).Success? ==>
        uploader(i, f).value != uploader(j, g).value
  }

  /** Length of the text form of a `java.util.UUID`. */
  const UuidLength: nat := 36

  /** Two public URLs of one configuration coincide only when the uuids in
      their object names do (for uuids of one length). */
  lemma PublicUrlDeterminesUuid(cfg: StorageConfig, n1: Option<string>, n2: Option<string>, u1: string, u2: string)
    requires |u1| == |u2|
    requires PublicUrl(cfg, BuildObjectName(n1, u1)) == PublicUrl(cfg, BuildObjectName(n2, u2))
    ensures u1 == u2
  {
    var front := NormalizeBaseUrl(cfg.url) + ObjectPath + PublicSegment + cfg.bucket + "/";
    assert PublicUrl(cfg, BuildObjectName(n1, u1)) == front + BuildObjectName(n1, u1);
    assert PublicUrl(cfg, BuildObjectName(n2, u2)) == front + BuildObjectName(n2, u2);
    assert BuildObjectName(n1, u1) == PublicUrl(cfg, BuildObjectName(n1, u1))[|front|..];
    ObjectNameDistinguishesUuids(n1, n2, u1, u2);
  }

  /** Two successful uploads under different uuids of one length publish different URLs. */
  lemma DistinctUuidsDistinctUrls(cfg: StorageConfig, f: Upload, g: Upload, u1: string, u2: string, post: string -> bool)
    requires |u1| == |u2| && u1 != u2
    requires UploadPhoto(cfg, f, u1, post).Success? && UploadPhoto(cfg, g, u2, post).Success?
    ensures UploadPhoto(cfg, f, u1, post).value != UploadPhoto(cfg, g, u2, post).value
  {
    if UploadPhoto(cfg, f, u1, post).value == UploadPhoto(cfg, g, u2, post).value {
      PublicUrlDeterminesUuid(cfg, f.originalFilename, g.originalFilename, u1, u2);
    }
  }

  /** When the first `n` uploads of a request draw different uuids of the
      standard length, none of them publishes another one's URL. */
  lemma DistinctUuidsGiveFreshUrls(cfg: StorageConfig, uuids: nat -> string, post: string -> bool, n: nat)
    requires forall i: nat :: i < n ==> |uuids(i)| == UuidLength
    requires forall i: nat, j: nat :: i < n && j < n && i != j ==> uuids(i) != uuids(j)
    ensures FreshUrlsBelow(StorageUploader(cfg, uuids, post), n)
  {
    var up := StorageUploader(cfg, uuids, post);
    forall i: nat, j: nat, f: Upload, g: Upload | i < n && j < n && i != j && up(i, f).Success? && up(j, g).Success?
      ensures up(i, f).value != up(j, g).value
    {
      assert up(i, f) == UploadPhoto(cfg, f, uuids(i), post);
      assert up(j, g) == UploadPhoto(cfg, g, uuids(j), post);
      DistinctUuidsDistinctUrls(cfg, f, g, uuids(i), uuids(j), post);
    }
  }

  /** Ten to the power `n`. */
  function Pow10(n: nat): (r: nat)
    ensures r > 0
  {
    if n == 0 then 1 else 10 * Pow10(n - 1)
  }

  /** The decimal digit `d` as a character. */
  function DigitChar(d: nat): char
    requires d < 10
  {
    ('0' as int + d) as char
  }

  /** `k` written with exactly `len` decimal digits, keeping the last `len`
      digits: a uuid source that draws a different text for each of the
      first ten-to-the-`len` uploads. */
  function SerialUuid(k: nat, len: nat): (r: string)
    ensures |r| == len
  {
    if len == 0 then "" else SerialUuid(k / 10, len - 1) + [DigitChar(k % 10)]
  }

  /** Numbers below ten to the `len` get different `len`-digit texts. */
  lemma {:induction false} SerialUuidInjective(k1: nat, k2: nat, len: nat)
    requires k1 < Pow10(len) && k2 < Pow10(len)
    requires SerialUuid(k1, len) == SerialUuid(k2, len)
    ensures k1 == k2
  {
    if len > 0 {
      var a, b := SerialUuid(k1, len), SerialUuid(k2, len);
      assert a[len - 1] == DigitChar(k1 % 10) && b[len - 1] == DigitChar(k2 % 10);
      assert k1 % 10 == k2 % 10;
      assert a[..len - 1] == SerialUuid(k1 / 10, len - 1);
      assert b[..len - 1] == SerialUuid(k2 / 10, len - 1);
      SerialUuidInjective(k1 / 10, k2 / 10, len - 1);
    }
  }

  /** The per-request freshness hypothesis is met by a real storage client:
      with 36-digit serial uuids, any request of up to ten to the 36 uploads
      publishes pairwise different URLs, whatever the configuration and the
      answers of the store. */
  lemma SerialUuidsGiveFreshUrls(cfg: StorageConfig, post: string -> bool, n: nat)
    requires n <= Pow10(UuidLength)
    ensures FreshUrlsBelow(StorageUploader(cfg, (k: nat) => SerialUuid(k, UuidLength), post), n)
  {
    var uuids: nat -> string := (k: nat) => SerialUuid(k, UuidLength);
    forall i: nat, j: nat | i < n && j < n && i != j ensures uuids(i) != uuids(j) {
      if uuids(i) == uuids(j) {
        SerialUuidInjective(i, j, UuidLength);
      }
    }
    DistinctUuidsGiveFreshUrls(cfg, uuids, post, n);
  }

  /** Every upload of the batch would succeed, the first one being upload
      number `first` of the request. */
  predicate AllUploadsSucceed(files: seq<Upload>, uploader: Uploader, first: nat) {
    forall k :: 0 <= k < |files| ==> uploader(first + k, files[k]).Success?
  }

  /** Uploads the files one after the other, numbering them from `first`; the
      first failure aborts the whole batch. */
  function UploadAll(files: seq<Upload>, uploader: Uploader, first: nat): (r: Result<seq<string>, Error>)
    ensures r.Success? <==> AllUploadsSucceed(files, uploader, first)
    ensures r.Success? ==>
              && |r.value| == |files|
              && forall k :: 0 <= k < |files| ==> r.value[k] == uploader(first + k, files[k]).value
    ensures r.Failure? ==> r.error == UploadFailed
  {
    if |files| == 0 then Success([])
    else
      match uploader(first, files[0])
      case Failure(_) => Failure(UploadFailed)
      case Success(url) =>
        var rest := UploadAll(files[1..], uploader, first + 1);
        if rest.Failure? then
          assert exists k :: 0 <= k < |files| - 1 && !uploader(first + 1 + k, files[1..][k]).Success?;
          rest
        else Success([url] + rest.value)
  }

  /** URLs published by consecutive uploads under fresh URLs are pairwise different. */
  lemma BatchUrlsDistinct(files: seq<Upload>, urls: seq<string>, uploader: Uploader, first: nat)
    requires FreshUrlsBelow(uploader, first + |files|)
    requires |urls| == |files|
    requires forall k :: 0 <= k < |files| ==>
               uploader(first + k, files[k]).Success? && urls[k] == uploader(first + k, files[k]).value
    ensures forall i, j :: 0 <= i < j < |urls| ==> urls[i] != urls[j]
  {
    forall i, j | 0 <= i < j < |urls| ensures urls[i] != urls[j] {
      assert uploader(first + i, files[i]).Success? && uploader(first + j, files[j]).Success?;
    }
  }

  /** With fresh URLs a batch publishes pairwise different URLs, even for
      files with the same name and size. */
  lemma FreshBatchIsDistinct(files: seq<Upload>, uploader: Uploader, first: nat)
    requires FreshUrlsBelow(uploader, first + |files|)
    requires UploadAll(files, uploader, first).Success?
    ensures var urls := UploadAll(files, uploader, first).value;
            forall i, j :: 0 <= i < j < |urls| ==> urls[i] != urls[j]
  {
    BatchUrlsDistinct(files, UploadAll(files, uploader, first).value, uploader, first);
  }

  /** `uploadTripPhotos`: a null or empty list uploads nothing; otherwise one
      URL per usable file, in order, or `UploadFailed` if any upload fails. */
  function UploadTripPhotos(photos: Option<seq<Option<Upload>>>, uploader: Uploader, first: nat): (r: Result<seq<string>, Error>)
    ensures photos.None? || |photos.value| == 0 ==> r == Success([])
    ensures photos.Some? ==>
              var files := UsableFiles(photos.value);
              && (r.Success? <==> AllUploadsSucceed(files, uploader, first))
              && (r.Success? ==> |r.value| == |files| &&
                                 forall k :: 0 <= k < |files| ==> r.value[k] == uploader(first + k, files[k]).value)
              && (r.Failure? ==> r.error == UploadFailed)
  {
    if photos.None? || |photos.value| == 0 then Success([])
    else UploadAll(UsableFiles(photos.value), uploader, first)
  }

  /** When no file is usable the uploader is never consulted: any two uploaders
      give the same (empty) result. */
  lemma NoUsableFileNoUpload(photos: Option<seq<Option<Upload>>>, up1: Uploader, up2: Uploader, first: nat)
    requires photos.None? || |UsableFiles(photos.value)| == 0
    ensures UploadTripPhotos(photos, up1, first) == UploadTripPhotos(photos, up2, first) == Success([])
  {
  }

  /** With the storage misconfigured, a batch fails exactly when it holds a usable file. */
  lemma MisconfiguredStorageFailsAnyUpload(cfg: StorageConfig, photos: seq<Option<Upload>>,
                                           uuids: nat -> string, post: string -> bool, first: nat)
    requires !ConfigurationValid(cfg)
    ensures var r := UploadTripPhotos(Some(photos), StorageUploader(cfg, uuids, post), first);
            r.Failure? <==> |UsableFiles(photos)| > 0
  {
    var up := StorageUploader(cfg, uuids, post);
    if |UsableFiles(photos)| > 0 {
      var f := UsableFiles(photos)[0];
      assert up(first + 0, f) == UploadPhoto(cfg, f, uuids(first), post);
    }
  }
}
