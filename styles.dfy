/**
  The theme record and the two small style selectors of the interface:
  `zebra_tag` names the stripe of a list row and `day_label_style` picks the
  colour and font of a day label from its grid column and whether it is today.
 */
module Styles {
  /** The `Theme` dataclass: the colours and font family every widget reads. */
  datatype Theme = Theme(
    mode: string, fontFamily: string, appBg: string, cardBg: string, textFg: string,
    mutedFg: string, accent: string, accentHover: string, border: string, weekendFg: string,
    todayFg: string, badgeBg: string, badgeFg: string, headerBg: string, listBg: string)

  /** A Tk font tuple: `(family, size)` or `(family, size, "bold")`. */
  datatype Font = Font(family: string, size: int, bold: bool)

  /** `zebra_tag(i)`: the row tag; Python's `%` by 2 is never negative, like Dafny's. */
  function ZebraTag(i: int): (r: string)
    ensures r == "even" || r == "odd"
    ensures r == "even" <==> i % 2 == 0
  {
    if i % 2 == 0 then "even" else "odd"
  }

  /** `day_label_style(col_index, is_today)`: the foreground colour and the font. */
  function DayLabelStyle(theme: Theme, col: int, isToday: bool): (r: (string, Font))
    ensures r.1.family == theme.fontFamily
    ensures isToday ==> r == (theme.todayFg, Font(theme.fontFamily, 11, true))
    ensures !isToday ==> r.1 == Font(theme.fontFamily, 10, false)
    ensures !isToday && col >= 5 ==> r.0 == theme.weekendFg
    ensures !isToday && col < 5 ==> r.0 == theme.textFg
  {
    var fg := if col >= 5 then theme.weekendFg else theme.textFg;
    if isToday then (theme.todayFg, Font(theme.fontFamily, 11, true))
    else (fg, Font(theme.fontFamily, 10, false))
  }
}
