/** Identifiers and payloads shared by the buffer, the journal and the save queue. */
module Checkpoint {
  import opened Wrappers
  import opened Utf8

  type DocId = nat
  type Revision = nat
  type Epoch = nat
  type Path = string
  type Text = seq<Scalar>

  datatype Language = Rust | TypeScript | JavaScript | Go | Python | PlainText

  datatype Payload = Payload(
    docId: DocId, revision: Revision, content: Text, language: Language, path: Option<Path>, epoch: Epoch)
}
