/** The caption segment every parsing path produces. */
module Segments {

  /**
   * One caption cue as the parser hands it back: `{text, start, duration, end}`,
   * times in seconds. Times are exact reals here, not IEEE doubles.
   */
  datatype Segment = Segment(text: string, start: real, duration: real, end: real)

  /** The `filter(item => item.text)` test: the text is a non-empty string. */
  predicate HasText(seg: Segment) {
    seg.text != []
  }
}
