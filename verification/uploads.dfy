/**
 The request checks both apps make before touching the uploaded file.
 */
module Uploads {
  import opened Common
  import Csv
  import UploadNames
  import Responses

  /**
   The `file` part of the form. `savedName` is what `secure_filename` made of
   `name`; the file is saved under it and `content` is what reading that saved
   file gives.
   */
  datatype FilePart = FilePart(name: string, savedName: string, content: Csv.Content)

  /**
   The checks in order: a `file` field must exist, its filename must not be
   empty, and `allowed_file` must accept it.
   */
  function Admit(file: Option<FilePart>): (r: Result<FilePart, Responses.Reason>)
    ensures r.Ok? <==> file.Some? && UploadNames.AllowedFile(file.value.name)
    ensures r.Ok? ==> r.value == file.value
    ensures file.None? ==> r == Err(Responses.NoFilePart)
    ensures file.Some? && file.value.name == "" ==> r == Err(Responses.NoFileSelected)
    ensures file.Some? && file.value.name != "" && !UploadNames.AllowedFile(file.value.name) ==>
      r == Err(Responses.NotAllowedType)
  {
    match file
    case None => Err(Responses.NoFilePart)
    case Some(f) =>
      if f.name == "" then Err(Responses.NoFileSelected)
      else if UploadNames.AllowedFile(f.name) then Ok(f)
      else Err(Responses.NotAllowedType)
  }
}
