/** Evidence confidence (pt-common/src/provenance.rs), lowered one step at a time. */
module Provenance {
  datatype Confidence = High | Medium | Low | Unknown

  function Downgrade(c: Confidence): Confidence {
    match c
    case High => Medium
    case Medium => Low
    case Low => Unknown
    case Unknown => Unknown
  }
}
