/** The internal return codes of errors.h, shared by the RIFF readers, the
    WSP scanner, the library loaders and the error-message tables, and the
    translation of riff_consume_chunk's failures into them. */
module Errors {
  import opened Riff

  const I_SUCCESS: int := 0
  const I_BUFFER_ERROR: int := -1
  const I_IO_ERROR: int := -2
  const I_FILE_TRUNCATED: int := -3
  const I_INIT_ERROR: int := -4
  const I_NOT_VORBIS: int := -5
  const I_DESYNC: int := -6
  const I_CORRUPT: int := -7
  const I_NOT_RIFF: int := -8
  const I_UNRECOGNIZED_DATA: int := -9
  const I_INSUFFICIENT_DATA: int := -10
  const I_BAD_ERROR: int := -99

  /** What a function answers: one of the codes above, or I_GENERIC_ERROR,
      which several files return but no header defines, so it has no value
      of its own here. */
  datatype Status = Code(value: int) | GenericError

  /** The chunk loops of process_wem.c, lib.c and common_lib.c: RIFF_ERROR
      is a buffer error, RIFF_NOT_RIFF and RIFF_CORRUPTED keep their
      meaning, anything else is reported as I_BAD_ERROR - err. */
  function ErrorCode(err: int): (c: int)
    ensures err == ERROR ==> c == I_BUFFER_ERROR
    ensures err == NOT_RIFF ==> c == I_NOT_RIFF
    ensures err == CORRUPTED ==> c == I_CORRUPT
    ensures err !in {ERROR, NOT_RIFF, CORRUPTED} ==> c + err == I_BAD_ERROR
    ensures c == I_SUCCESS <==> err == I_BAD_ERROR
  {
    if err == ERROR then I_BUFFER_ERROR
    else if err == NOT_RIFF then I_NOT_RIFF
    else if err == CORRUPTED then I_CORRUPT
    else I_BAD_ERROR - err
  }
}
