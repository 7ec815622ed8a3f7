/** The plain records the editor passes around (src/packets.py). */
module Packets {

  /** A fetched completion: its text, the colour it is shown in, and the
      length the buffer had when the fetch started (the source spells the
      field `bufferlenght`). */
  datatype CompletionPacket = CompletionPacket(content: string, shade: string, bufferLength: int)

  /** The packet a session starts with: nothing to complete. */
  const EmptyPacket := CompletionPacket([], [], 0)
}
