/** The ways a build aborts. Every one of them ends the build without writing the database. */
module Errors {

  datatype Error =
    | UnknownQuality(quality: string)               // render_image: a level name outside the six
    | UnknownType(mime: string)                     // a format missing from the quality tables
    | UnsupportedQuality(mime: string, quality: string)
    | UndecodableImage                              // the image library cannot open the bytes
    | ResolutionExceeded(width: nat, available: nat) // a render wider than its source
    | Integrity(table: string)                      // a key, foreign-key or CHECK violation
    | CacheNotIndefinite(cache: string)             // a content-addressed resource must be INDEFINITE
    | EmptyType(id: string)
    | DuplicateId(id: string)
    | DuplicateUris(id: string)
    | MissingFile(path: string)
    | MissingKey(key: string)                       // a dictionary or attribute lookup that fails
    | MalformedDocument(path: string)
    | MultipleImg
    | MissingImg
    | SourceInPicture
    | NamespaceTag(tag: string)
    | NamespaceAttribute(tag: string)               // the element carrying an msssg attribute
    | MissingNotFound
    | IllegalPermalinkCache
    | UnknownAction(action: string)
    | ReferenceDepth(path: string)                  // documents referring to each other too deeply
}
