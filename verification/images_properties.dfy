/** Properties that relate several image-service calls: an upload followed by its deletion,
    as written and as intended, deletion's tolerance of a missing file, and how a validated
    create body is stored. */
module ImagesProperties {
  import opened Wrappers
  import opened Text
  import opened Dtos
  import opened ImagesService

  /** As written, deleting a freshly uploaded image removes the record but leaves the upload
      in place: the uploads directory, and so what the server publishes under `/uploads/`,
      still holds the file afterwards, whether or not the unlink fails. */
  lemma SaveThenDeleteLeavesUpload(images: Images, disk: Disk, filename: string, dto: CreateImageDto,
                                   freshId: ImageId, now: int, unlinkFault: bool)
    requires dto.name.Some? && freshId !in images
    requires filename != "" && '/' !in filename && filename in disk.uploads
    ensures var saved := SaveImage(images, Some(UploadedFile(Some(filename))), dto, freshId, now);
      && saved.Success?
      && var deleted := DeleteImage(saved.value.0, disk, freshId, unlinkFault);
      && deleted.Success?
      && deleted.value.0 == images
      && deleted.value.1.uploads == disk.uploads
      && filename in deleted.value.1.uploads
  {
  }

  /** With the unlink in the uploads directory, deleting a freshly uploaded image restores
      the record store and removes exactly the file the upload named, provided the generated
      name has no `/`. */
  lemma SaveThenDelete(images: Images, disk: Disk, filename: string, dto: CreateImageDto,
                       freshId: ImageId, now: int)
    requires dto.name.Some? && freshId !in images
    requires filename != "" && '/' !in filename
    ensures var saved := SaveImage(images, Some(UploadedFile(Some(filename))), dto, freshId, now);
      && saved.Success?
      && var deleted := DeleteImageIntended(saved.value.0, disk, freshId, false);
      && deleted.Success?
      && deleted.value.0 == images
      && deleted.value.1.uploads == disk.uploads - {filename}
      && deleted.value.1.buildUploads == disk.buildUploads
  {
    var saved := SaveImage(images, Some(UploadedFile(Some(filename))), dto, freshId, now);
    var images' := saved.value.0;
    UrlFilenameRoundTrip(filename);
    assert LastSegment(images'[freshId].url, '/') == filename;
    assert images' - {freshId} == images;
  }

  /** A file already gone from the directory a deletion unlinks in does not stop it: the
      record is removed, the disk is left as it was, and the usual message is returned. */
  lemma DeleteWithMissingFile(images: Images, disk: Disk, id: ImageId, unlinkFault: bool)
    requires id in images
    ensures LastSegment(images[id].url, '/') !in disk.buildUploads ==>
      DeleteImage(images, disk, id, unlinkFault) == Success((images - {id}, disk, ImageDeleted))
    ensures LastSegment(images[id].url, '/') !in disk.uploads ==>
      DeleteImageIntended(images, disk, id, unlinkFault) == Success((images - {id}, disk, ImageDeleted))
  {
  }

  /** A second deletion of the same id fails and so touches no file. */
  lemma DeleteTwiceFails(images: Images, disk: Disk, id: ImageId, fault: bool, fault': bool)
    requires id in images
    ensures var (images', disk', _) := DeleteImage(images, disk, id, fault).value;
      DeleteImage(images', disk', id, fault') == Failure(RecordNotFound)
    ensures var (images', disk', _) := DeleteImageIntended(images, disk, id, fault).value;
      DeleteImageIntended(images', disk', id, fault') == Failure(RecordNotFound)
  {
  }

  /** A create body that passes validation always carries a description; an empty one is
      dropped at save time and a non-empty one is stored as given. */
  lemma ValidatedDescriptionIsStoredWhenNonEmpty(images: Images, filename: string, dto: CreateImageDto,
                                                 freshId: ImageId, now: int)
    requires ValidCreateImageDto(dto) && freshId !in images && filename != ""
    ensures var r := SaveImage(images, Some(UploadedFile(Some(filename))), dto, freshId, now);
      && r.Success?
      && (dto.description == Some("") ==> r.value.1.description.None?)
      && (dto.description != Some("") ==> r.value.1.description == dto.description)
  {
  }

  /** An update never moves an image to another file: its URL, and so the file a later
      deletion unlinks, stays the same. */
  lemma UpdateKeepsFile(images: Images, disk: Disk, id: ImageId, patch: UpdateImageDto, fault: bool)
    requires UpdateImage(images, id, patch).Success?
    ensures var images' := UpdateImage(images, id, patch).value.0;
      && DeleteImage(images', disk, id, fault).Success?
      && DeleteImage(images', disk, id, fault).value.1 == DeleteImage(images, disk, id, fault).value.1
      && DeleteImageIntended(images', disk, id, fault).Success?
      && DeleteImageIntended(images', disk, id, fault).value.1 == DeleteImageIntended(images, disk, id, fault).value.1
  {
  }
}
