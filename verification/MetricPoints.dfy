/** Metric points on the wire, and what makes names, labels and values acceptable. */
module MetricPoints {
  import opened Text

  datatype Float = Finite(r: real) | PosInf | NegInf | NaN

  datatype Point = Point(name: string, value: Float, ts: int, labels: map<string, string>)

  const MAX_NAME_BYTES := 128
  const MAX_LABELS := 16
  const MAX_KEY_BYTES := 64
  const MAX_VALUE_BYTES := 256

  /**
   A stand-in for `unicode.IsLetter(c) || unicode.IsDigit(c)`: any table that is right for ASCII.
   */
  ghost predicate AlnumTable(alnum: char -> bool) {
    forall c: char :: (c as int) < 0x80 ==> (alnum(c) <==> 'a' <= c <= 'z' || 'A' <= c <= 'Z' || '0' <= c <= '9')
  }

  predicate IdentifierChar(c: char, alnum: char -> bool) {
    alnum(c) || c == '_' || c == ':' || c == '-' || c == '.'
  }

  predicate ValidIdentifier(s: string, maxBytes: int, alnum: char -> bool) {
    s != "" && ByteLen(s) <= maxBytes && forall i :: 0 <= i < |s| ==> IdentifierChar(s[i], alnum)
  }

  predicate ValidText(s: string, maxBytes: int) {
    ByteLen(s) <= maxBytes && forall i :: 0 <= i < |s| ==> !IsControl(s[i])
  }

  predicate ValidLabels(labels: map<string, string>, alnum: char -> bool) {
    forall k :: k in labels ==> ValidIdentifier(k, MAX_KEY_BYTES, alnum) && ValidText(labels[k], MAX_VALUE_BYTES)
  }

  predicate ValidPoint(p: Point, alnum: char -> bool) {
    && ValidIdentifier(p.name, MAX_NAME_BYTES, alnum) && p.value.Finite?
    && |p.labels| <= MAX_LABELS && ValidLabels(p.labels, alnum)
  }
}
