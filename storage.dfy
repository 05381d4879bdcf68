/** The values shared by every storage backend: the two sentinel errors callers test for, the
    errors passed through from the operating system, and the metadata record of an entry. */
module Storage {
  import opened Common
  import Os

  /** `ErrNotFound` ("file not found"), `ErrPermission` ("permission denied"), or an error of the
      underlying system handed back unchanged. */
  datatype StorageError = NotFound | Permission | Other(cause: Os.OsError)

  /** Metadata of one entry; `path` is relative to the backend's root and '/'-separated. */
  datatype FileInfo = FileInfo(name: string, path: string, size: int64, isDir: bool)
}
