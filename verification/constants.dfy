/** Constants shared by the server (src/constants.rs) and the user interface
    (ui/src/constants.ts). */
module Constants {
  const UNIDIRECTIONAL_STREAMS_ID: nat := 0xfffff0
  const BIDIRECTIONAL_STREAMS_ID: nat := 0xfffff1
  /** The source id of the bidirectional control-message stream. */
  const MESSAGE_STREAM_ID: nat := 0xffffff
  const MESSAGE_MAXIMUM_LENGTH: nat := 0x10_0000
  const MESSAGE_RECOMMENDED_BUFFER_COUNT: nat := 32
  const PACKET_MAXIMUM_LENGTH: nat := 0x40_0000
  const PACKET_RECOMMENDED_BUFFER_COUNT: nat := 16
  const STACK_MINIMUM_SAMPLES: nat := 10
  const SAMPLE_STACK_LENGTH: nat := 256

  /** `MESSAGES_SOURCE_ID` on the user-interface side. */
  const MESSAGES_SOURCE_ID: nat := 0xffffff
  /** The EVT3 renderer's rebasing step, in microseconds. */
  const MAXIMUM_DELTA: nat := 3600000000

  /** Worker message types. */
  const TRANSPORT_TO_MAIN_BUFFER: nat := 5
  const TRANSPORT_TO_DECODE_BUFFER: nat := 6
}
