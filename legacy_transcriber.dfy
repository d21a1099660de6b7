/** The segment record of the older dubalot package: timing, text and its language. */
module LegacyTranscriber {
  datatype Segment = Segment(start: real, end: real, text: string, language: string)
}
