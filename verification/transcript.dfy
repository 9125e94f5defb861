/** The transcript segments the transcription step hands to highlight
    extraction and to the editor: a dictionary with `start`, `end` (seconds)
    and `text`. */
module Transcript {

  datatype Segment = Segment(start: real, end: real, text: string)
}
