/** The disk the services write uploads and documents to, as an abstract store
    from path to content.  A path is the reference stored on a record, read
    relative to the project root. */
module Storage {
  import opened Wrappers
  import opened Errors
  import opened Layout

  newtype byte = b: int | 0 <= b < 256

  /** What a file holds: uploaded bytes, or a PDF document given by its drawing operations. */
  datatype Content = Bytes(data: seq<byte>) | Document(ops: seq<RenderOp>)

  /** The changes made to the disk, in the order they happened. */
  datatype FsEvent = Wrote(path: string) | Unlinked(path: string) | Opened(path: string) | Ended(path: string)

  /** An upload as multer hands it over: the client's file name and the bytes. */
  datatype UploadedFile = UploadedFile(originalname: string, buffer: seq<byte>)

  class FileStore {
    var files: map<string, Content>
    ghost var trace: seq<FsEvent>

    constructor (initial: map<string, Content>)
      ensures files == initial && trace == []
    {
      files := initial;
      trace := [];
    }

    /** `fs.access(path).then(() => true).catch(() => false)` */
    method Access(path: string) returns (present: bool)
      ensures present <==> path in files
    {
      present := path in files;
    }

    /** `fs.writeFile(path, data)`: creates or replaces the file. */
    method WriteFile(path: string, data: seq<byte>)
      modifies this
      ensures files == old(files)[path := Bytes(data)]
      ensures trace == old(trace) + [Wrote(path)]
    {
      files := files[path := Bytes(data)];
      trace := trace + [Wrote(path)];
    }

    /** `fs.unlink(path)`: rejects with ENOENT, changing nothing, when the file is absent. */
    method Unlink(path: string) returns (r: Result<(), Error>)
      modifies this
      ensures path in old(files) ==> r == Ok(()) && files == old(files) - {path}
                                     && trace == old(trace) + [Unlinked(path)]
      ensures path !in old(files) ==> r == Err(Enoent(path)) && files == old(files)
                                      && trace == old(trace)
    {
      if path in files {
        files := files - {path};
        trace := trace + [Unlinked(path)];
        r := Ok(());
      } else {
        r := Err(Enoent(path));
      }
    }

    /** `fsSync.createWriteStream(path)` piped from a new PDF document: the file now
        exists and holds an empty document. */
    method CreateWriteStream(path: string)
      modifies this
      ensures files == old(files)[path := Document([])]
      ensures trace == old(trace) + [Opened(path)]
    {
      files := files[path := Document([])];
      trace := trace + [Opened(path)];
    }

    /** `doc.end()`: the document drawn so far is flushed to its file. */
    method EndDocument(path: string, ops: seq<RenderOp>)
      modifies this
      ensures files == old(files)[path := Document(ops)]
      ensures trace == old(trace) + [Ended(path)]
    {
      files := files[path := Document(ops)];
      trace := trace + [Ended(path)];
    }
  }
}
