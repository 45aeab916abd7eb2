/** What the builder asks of the world around it: hashing, compression, the image library,
    the XML library, the source tree and the clock. None of it is modelled; each is a value
    the builder is given, so every statement about the builder holds for all of them. */
module Host {
  import opened Wrappers
  import opened Text
  import Quality
  import Markup
  import Errors

  /** A SHA3-256 digest. */
  type Digest = d: Bytes | |d| == 32 witness Zero32()

  function Zero32(): (d: Bytes)
    ensures |d| == 32
  {
    seq(32, i => 0)
  }

  /** A file of the source tree: its bytes and its modification time as an ordered revision. */
  datatype SourceFile = SourceFile(data: Bytes, revision: int)

  datatype Env = Env(
    sha3: Bytes -> Digest,                                   // hashlib's sha3_256
    compress: (string, Bytes) -> Bytes,                      // gzip, deflate or br, by name
    relpath: string -> string,                               // os.path.relpath with "\\" made "/"
    files: map<string, SourceFile>,                          // readable files by path
    imageWidth: Bytes -> Option<nat>,                        // PIL's decode: the pixel width, if any
    encodeImage: (string, string, Quality.Value, Bytes, nat) -> Bytes, // resize and save: type, level, value, source, width
    parse: Bytes -> Option<Markup.Element>,                  // lxml's parse
    serialize: Markup.Element -> Bytes,                      // lxml's tostring
    revision: int)                                           // the revision of this build

  /** data_file: the bytes of a file, or the error of a missing one. */
  function ReadFile(env: Env, path: string): (r: Result<Bytes, Errors.Error>)
    ensures r.Ok? <==> path in env.files
    ensures r.Ok? ==> r.value == env.files[path].data
  {
    if path in env.files then Ok(env.files[path].data) else Err(Errors.MissingFile(path))
  }
}
