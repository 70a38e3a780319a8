/** The image service: uploads recorded under a public URL, a paged newest-first listing,
    partial updates, and deletion that removes the record and then, best effort, the file.
    A directory is the set of file names it holds. */
module ImagesService {
  import opened Wrappers
  import opened Text
  import opened Paging
  import opened Dtos

  type ImageId = int

  datatype Image = Image(name: string, description: Option<string>, url: string, createdAt: int)

  type Images = map<ImageId, Image>

  /** A row as the service returns it. */
  datatype ImageRow = ImageRow(id: ImageId, name: string, description: Option<string>, url: string, createdAt: int)

  function Row(id: ImageId, img: Image): ImageRow
  {
    ImageRow(id, img.name, img.description, img.url, img.createdAt)
  }

  /** The upload as Multer hands it over: `filename` is the generated name on disk. */
  datatype UploadedFile = UploadedFile(filename: Option<string>)

  /** The partial update body; `update-image.dto.ts` is not part of this model, and its
      fields are taken to be the optional `name` and `description` of the create body. */
  datatype UpdateImageDto = UpdateImageDto(name: Option<string>, description: Option<string>)

  /** `new Error(...)` for a missing upload, and Prisma's record-not-found failure. */
  datatype ImageError = FileMissing(message: string) | RecordNotFound

  const FileOrFilenameMissing := "File or filename is missing"
  const ImageDeleted := "Image deleted successfully"

  /** The public address of the uploads directory; a stored URL is this plus the file name. */
  const UploadsBase := "http://localhost:3000/uploads"
  const UrlPrefix := "http://localhost:3000/uploads/"

  function ImageUrl(filename: string): (url: string)
    ensures |url| == |UrlPrefix| + |filename|
    ensures url[..|UrlPrefix|] == UrlPrefix && url[|UrlPrefix|..] == filename
  {
    UrlPrefix + filename
  }

  /** The stored URL gives back the file name under `split('/').pop()` exactly when the name
      has no `/` in it. */
  lemma UrlFilenameRoundTrip(filename: string)
    ensures LastSegment(ImageUrl(filename), '/') == filename <==> '/' !in filename
  {
    assert UrlPrefix == UploadsBase + ['/'];
    assert ImageUrl(filename) == UploadsBase + ['/'] + filename;
    LastSegmentOfAppend(UploadsBase, '/', filename);
  }

  /** `!file || !file.filename`: no upload, or one without a (non-empty) generated name. */
  predicate Missing(file: Option<UploadedFile>)
  {
    file.None? || file.value.filename.None? || file.value.filename.value == ""
  }

  /** The JavaScript spread `...(description && { description })`: only a non-empty
      description is written. */
  function KeptDescription(description: Option<string>): (d: Option<string>)
    ensures d.Some? <==> description.Some? && description.value != ""
    ensures d.Some? ==> d == description
  {
    if description.Some? && description.value != "" then description else None
  }

  /** `saveImage(file, dto)`: the store hands out `freshId` and the clock reads `now`. */
  function SaveImage(images: Images, file: Option<UploadedFile>, dto: CreateImageDto, freshId: ImageId, now: int)
    : (r: Result<(Images, ImageRow), ImageError>)
    requires dto.name.Some?
    requires freshId !in images
    ensures r.Failure? <==> Missing(file)
    ensures r.Failure? ==> r.error == FileMissing(FileOrFilenameMissing)
    ensures r.Success? ==>
      var (images', row) := r.value;
      var filename := file.value.filename.value;
      && images'.Keys == images.Keys + {freshId}
      && (forall id :: id in images ==> images'[id] == images[id])
      && images'[freshId].name == dto.name.value
      && images'[freshId].url == UrlPrefix + filename
      && images'[freshId].createdAt == now
      && (images'[freshId].description.Some? <==> dto.description.Some? && dto.description.value != "")
      && (images'[freshId].description.Some? ==> images'[freshId].description == dto.description)
      && row == Row(freshId, images'[freshId])
  {
    if Missing(file) then Failure(FileMissing(FileOrFilenameMissing))
    else
      var img := Image(dto.name.value, KeptDescription(dto.description), ImageUrl(file.value.filename.value), now);
      Success((images[freshId := img], Row(freshId, img)))
  }

  function CreatedAt(images: Images): map<ImageId, int>
  {
    map id | id in images :: images[id].createdAt
  }

  datatype ImagePage = ImagePage(data: seq<ImageRow>, total: nat, page: int, totalPages: nat)

  /** `getAllImages(page, limit)`: one page of all images, newest first, with the number of
      images and of pages. `order` is the full listing the page is cut from. */
  method GetAllImages(images: Images, page: int, limit: int) returns (r: ImagePage, ghost order: seq<ImageId>)
    requires page >= 1 && limit >= 1
    ensures NewestFirst(CreatedAt(images), images.Keys, order)
    ensures var ids := Page(order, page, limit);
      && |r.data| == |ids|
      && forall i :: 0 <= i < |ids| ==> ids[i] in images && r.data[i] == Row(ids[i], images[ids[i]])
    ensures |r.data| <= limit
    ensures r.total == |images|
    ensures r.page == page
    ensures (r.totalPages - 1) * limit < r.total <= r.totalPages * limit
  {
    var o := NewestFirstOrder(CreatedAt(images), images.Keys);
    order := o;
    NewestFirstLength(CreatedAt(images), images.Keys, o);
    var pageIds := Page(o, page, limit);
    assert forall i :: 0 <= i < |pageIds| ==> pageIds[i] in images by {
      forall i | 0 <= i < |pageIds| ensures pageIds[i] in images {
        assert pageIds[i] == o[Skip(page, limit) + i];
      }
    }
    var data := seq(|pageIds|, i requires 0 <= i < |pageIds| => Row(pageIds[i], images[pageIds[i]]));
    r := ImagePage(data, |images|, page, CeilDiv(|images|, limit));
  }

  /** `updateImage(id, dto)`: writes the supplied fields of one image. */
  function UpdateImage(images: Images, id: ImageId, patch: UpdateImageDto): (r: Result<(Images, ImageRow), ImageError>)
    ensures r.Failure? <==> id !in images
    ensures r.Failure? ==> r.error == RecordNotFound
    ensures r.Success? ==>
      var (images', row) := r.value;
      && images'.Keys == images.Keys
      && (forall other :: other in images && other != id ==> images'[other] == images[other])
      && images'[id].name == (if patch.name.Some? then patch.name.value else images[id].name)
      && images'[id].description == (if patch.description.Some? then patch.description else images[id].description)
      && images'[id].url == images[id].url
      && images'[id].createdAt == images[id].createdAt
      && row == Row(id, images'[id])
  {
    if id !in images then Failure(RecordNotFound)
    else
      var img := images[id];
      var img' := img.(name := patch.name.GetOr(img.name),
                       description := if patch.description.Some? then patch.description else img.description);
      Success((images[id := img'], Row(id, img')))
  }

  /** `fs.unlink`: fails when the file is not there, or when the environment reports a
      fault (`fault`); otherwise the name leaves the directory. */
  function Unlink(files: set<string>, name: string, fault: bool): (r: Result<set<string>, string>)
    ensures r.Success? <==> name in files && !fault
    ensures r.Success? ==> r.value == files - {name} && |r.value| == |files| - 1
  {
    if fault || name !in files then Failure(name) else Success(files - {name})
  }

  /** The two directories named `uploads` once the project is built into `dist/` and started
      as `dist/main.js` from the project root. `uploads` is `<root>/uploads`: Multer writes
      there (`./uploads`, relative to the working directory) and the server publishes it under
      `/uploads/` (`join(__dirname, '..', 'uploads')` from `dist/`). `buildUploads` is
      `<root>/dist/uploads`: `join(__dirname, '..', '..', 'uploads')` from `dist/api/images`,
      where the compiled image service lives. */
  datatype Disk = Disk(uploads: set<string>, buildUploads: set<string>)

  /** The record deletion shared by both versions of `deleteImage`: remove the record, then
      unlink the last segment of its URL in `dir`, swallowing a failed unlink. */
  function DeleteRecordAndUnlink(images: Images, dir: set<string>, id: ImageId, unlinkFault: bool)
    : (r: Result<(Images, set<string>), ImageError>)
    ensures r.Failure? <==> id !in images
    ensures r.Failure? ==> r.error == RecordNotFound
    ensures r.Success? ==>
      var (images', dir') := r.value;
      var filename := LastSegment(images[id].url, '/');
      && images' == images - {id}
      && dir' <= dir
      && dir - dir' <= {filename}
      && (!unlinkFault ==> dir' == dir - {filename})
      && (unlinkFault ==> dir' == dir)
  {
    if id !in images then Failure(RecordNotFound)
    else
      var filename := LastSegment(images[id].url, '/');
      var dir' := match Unlink(dir, filename, unlinkFault)
        case Success(remaining) => remaining
        case Failure(_) => dir;
      Success((images - {id}, dir'))
  }

  /** `deleteImage(id)` as written: removes the record, then unlinks the file named by the
      last segment of its URL in `buildUploads`, a directory Multer never writes to, and
      swallows the failure. The uploads directory is never touched. */
  function DeleteImage(images: Images, disk: Disk, id: ImageId, unlinkFault: bool)
    : (r: Result<(Images, Disk, string), ImageError>)
    ensures r.Failure? <==> id !in images
    ensures r.Failure? ==> r.error == RecordNotFound
    ensures r.Success? ==>
      var (images', disk', message) := r.value;
      var filename := LastSegment(images[id].url, '/');
      && images' == images - {id}
      && disk'.uploads == disk.uploads
      && disk'.buildUploads <= disk.buildUploads
      && disk.buildUploads - disk'.buildUploads <= {filename}
      && (!unlinkFault ==> disk'.buildUploads == disk.buildUploads - {filename})
      && message == ImageDeleted
  {
    match DeleteRecordAndUnlink(images, disk.buildUploads, id, unlinkFault)
    case Failure(e) => Failure(e)
    case Success((images', dir')) => Success((images', disk.(buildUploads := dir'), ImageDeleted))
  }

  /** `deleteImage(id)` as evidently intended: the same, but the unlink is in the directory
      the upload was written to and is served from. */
  function DeleteImageIntended(images: Images, disk: Disk, id: ImageId, unlinkFault: bool)
    : (r: Result<(Images, Disk, string), ImageError>)
    ensures r.Failure? <==> id !in images
    ensures r.Failure? ==> r.error == RecordNotFound
    ensures r.Success? ==>
      var (images', disk', message) := r.value;
      var filename := LastSegment(images[id].url, '/');
      && images' == images - {id}
      && disk'.buildUploads == disk.buildUploads
      && disk'.uploads <= disk.uploads
      && disk.uploads - disk'.uploads <= {filename}
      && (!unlinkFault ==> disk'.uploads == disk.uploads - {filename})
      && message == ImageDeleted
  {
    match DeleteRecordAndUnlink(images, disk.uploads, id, unlinkFault)
    case Failure(e) => Failure(e)
    case Success((images', dir')) => Success((images', disk.(uploads := dir'), ImageDeleted))
  }
}
