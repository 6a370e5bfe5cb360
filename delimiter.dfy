/** The separator sniffed from the header line. */
module Delimiter {
  const Tab: char := '\t'
  const Comma: char := ','

  /** The header line has a tab at some position. */
  predicate HasTab(line: string)
  {
    exists i :: 0 <= i < |line| && line[i] == Tab
  }

  /**
   * Tab when the header contains a tab, comma otherwise; no other separator
   * is ever chosen, however many commas or semicolons the line holds.
   */
  function Separator(header: string): (sep: char)
    ensures sep == Tab <==> HasTab(header)
    ensures sep != Tab ==> sep == Comma
  {
    if Tab in header then Tab else Comma
  }
}
