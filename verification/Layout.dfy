/** What is common to the ways a text can be laid out: blanks and figures, each character written out. */
module Layout {

  predicate Blank(ch: char) {
    ch in [' ', '\n', '\r', '\t']
  }

  predicate Blanks(s: string) {
    forall i :: 0 <= i < |s| ==> Blank(s[i])
  }

  predicate NoneOf(s: string, excluded: string) {
    forall i :: 0 <= i < |s| ==> s[i] !in excluded
  }

  const LOWER := "0123456789abcdef"
  const UPPER := "0123456789ABCDEF"

  type FigureValue = n: nat | n < 16

  /** A hexadecimal digit, by its value and its case. */
  datatype Figure = Figure(value: FigureValue, upper: bool)

  function SpellFigure(f: Figure): char {
    if f.upper then UPPER[f.value] else LOWER[f.value]
  }

  function SpellFigures(figures: seq<Figure>): string {
    seq(|figures|, i requires 0 <= i < |figures| => SpellFigure(figures[i]))
  }

  /** The number that figures stand for in a base. */
  function NumberOf(figures: seq<Figure>, base: nat): nat {
    if figures == [] then 0 else NumberOf(figures[..|figures| - 1], base) * base + figures[|figures| - 1].value
  }
}
