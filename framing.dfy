/**
 * The byte-level guards around parsing and output: a `---` document
 * marker is put in front of the configuration text before parsing, so
 * that comments on the first lines stay attached, and the marshalled
 * output is trimmed of surrounding white space.
 */
module Framing {
  import opened GoStrings

  newtype byte = x: int | 0 <= x < 256

  /** The bytes of `---`. */
  const Marker: seq<byte> := [45, 45, 45]

  /** The bytes of `---\n`. */
  const MarkerLine: seq<byte> := Marker + [10]

  /** Prepend `---\n` when the text is at least three bytes long and does not start with `---`. */
  function WithMarker(body: seq<byte>): (r: seq<byte>)
    ensures |r| >= |body| && r[|r| - |body|..] == body
  {
    if |body| >= 3 && body[..3] != Marker then MarkerLine + body else body
  }

  /**
   * A text of three bytes or more comes out starting with `---`, and
   * gains the marker line exactly when it did not start with one; shorter
   * texts, the empty file among them, are left alone; applying the guard
   * twice is the same as once.
   */
  lemma WithMarkerSpec(body: seq<byte>)
    ensures |body| >= 3 ==> WithMarker(body)[..3] == Marker
    ensures |body| >= 3 ==> (WithMarker(body) == MarkerLine + body <==> body[..3] != Marker)
    ensures |body| < 3 ==> WithMarker(body) == body
    ensures WithMarker(WithMarker(body)) == WithMarker(body)
  {
    if |body| >= 3 && body[..3] != Marker {
      assert (MarkerLine + body)[..3] == Marker;
    }
  }

  /**
   * The output text: the marshalled document with its leading and trailing
   * white space removed and nothing else changed.
   */
  function OutputText(marshalled: string): (out: string)
    ensures IsTrimmingOf(marshalled, out, |marshalled| - |TrimLeft(marshalled)|)
  {
    TrimSpaceTrims(marshalled);
    TrimSpace(marshalled)
  }
}
