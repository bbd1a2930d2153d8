/** The execute messages and the buffers they are formatted in. */
module Requests {
  import opened Bytes
  import opened Text
  import Base64

  const FORMAT :=
    "%03d EXECUTE-STATEMENT\r\nSTATEMENT-BASE64:%s\r\nOutput-Mode:%s\r\n"
    + "FIRST-PAGE-SIZE:%i\r\nPREFERRED-IMAGE-TYPES:%s\r\n\r\n"
  const PARAM_FORMAT :=
    "%03d EXECUTE-STATEMENT\r\nSTATEMENT-BASE64:%s\r\nOutput-Mode:%s\r\n"
    + "FIRST-PAGE-SIZE:%i\r\nPREFERRED-IMAGE-TYPES:%s\r\nPARAMETER-TYPES:%s\r\n\r\n"

  /** snprintf into a buffer of `size` bytes keeps one of them for the NUL. */
  function Snprintf(size: nat, text: string): string {
    if |text| < size then text else if size == 0 then "" else text[..size - 1]
  }

  /** The lines up to the image types; id is the command number in three digits. */
  function Front(id: string, statement: seq<byte>, pageSize: int): string {
    id + " EXECUTE-STATEMENT\r\nSTATEMENT-BASE64:" + Base64.Encode(statement)
    + "\r\nOutput-Mode:release\r\nFIRST-PAGE-SIZE:"
    + Signed(pageSize) + "\r\nPREFERRED-IMAGE-TYPES:"
  }

  function ExecuteText(id: string, statement: seq<byte>, pageSize: int, images: string): string {
    Front(id, statement, pageSize) + images + "\r\n\r\n"
  }

  function ParamText(id: string, statement: seq<byte>, pageSize: int, images: string, types: string): string {
    Front(id, statement, pageSize) + images + "\r\nPARAMETER-TYPES:" + types + "\r\n\r\n"
  }

  /** The message as it goes out. */
  function ExecuteMessage(id: string, statement: seq<byte>, pageSize: int, images: string): string {
    Snprintf(|FORMAT| + |Base64.Encode(statement)| + 42, ExecuteText(id, statement, pageSize, images))
  }

  function ParamMessage(id: string, statement: seq<byte>, pageSize: int, images: string, types: string): string {
    Snprintf(|Base64.Encode(statement)| + |PARAM_FORMAT| + |images| + |types| + 20,
             ParamText(id, statement, pageSize, images, types))
  }

  lemma FrontLength(id: string, statement: seq<byte>, pageSize: int)
    ensures |Front(id, statement, pageSize)|
         == |FORMAT| - 9 + |id| + |Base64.Encode(statement)| + |Signed(pageSize)|
  {
    hide Base64.Encode, Signed;
  }

  /** Without parameters the buffer is sized without the image types: the message is cut off,
      and loses the blank line that ends it, exactly when they and the page size take more
      than 43 characters; it loses as many as are too many. */
  lemma ExecuteWhole(id: string, statement: seq<byte>, pageSize: int, images: string)
    requires |id| == 3
    ensures ExecuteMessage(id, statement, pageSize, images) == ExecuteText(id, statement, pageSize, images)
       <==> |images| + |Signed(pageSize)| <= 43
    ensures var surplus := |images| + |Signed(pageSize)| - 43;
            var text := ExecuteText(id, statement, pageSize, images);
            ExecuteMessage(id, statement, pageSize, images)
            == if surplus <= 0 then text else text[..if surplus <= |text| then |text| - surplus else 0]
  {
    FrontLength(id, statement, pageSize);
    hide Front, Base64.Encode, Signed;
  }

  /** With parameters it always fits. */
  lemma ParamWhole(id: string, statement: seq<byte>, pageSize: int, images: string, types: string)
    requires |id| == 3 && -0x8000_0000 <= pageSize < 0x8000_0000
    ensures ParamMessage(id, statement, pageSize, images, types) == ParamText(id, statement, pageSize, images, types)
  {
    FrontLength(id, statement, pageSize);
    SignedLength(pageSize);
    hide Front, Base64.Encode, Signed;
  }
}
