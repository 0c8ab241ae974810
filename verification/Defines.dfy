/** The constants of defines.go that the models depend on. */
module Defines {
  import opened Bytes

  const CS_ID_BASE: uint32 := 2
  const CS_ID_PROTOCOL_CONTROL: uint32 := 2
  const CS_ID_COMMAND: uint32 := 3
  const CS_ID_USER_CONTROL: uint32 := 4
  const CS_ID_MAX: uint32 := 100

  const SET_CHUNK_SIZE: byte := 1
  const WINDOW_ACKNOWLEDGEMENT_SIZE: byte := 5
  const AUDIO_TYPE: byte := 8
  const VIDEO_TYPE: byte := 9
  const DATA_AMF0: byte := 18

  const DEFAULT_CHUNK_SIZE: uint32 := 128
  const DEFAULT_WINDOW_SIZE: uint32 := 1048576

  /** A 24-bit timestamp field holding this value announces an extended timestamp. */
  const EXTENDED: uint32 := 0xffffff
}
