/** Removal of a data-URI header (such as `data:image/png;base64,`) from a mask string. */
module DataUri {
  import opened Outcomes

  /** The position of the first `c` in `s`, if there is one. */
  function FirstIndexOf(s: string, c: char): (r: Option<nat>)
    ensures r.None? <==> c !in s
    ensures r.Some? ==> r.value < |s| && s[r.value] == c && c !in s[..r.value]
  {
    if s == [] then None
    else if s[0] == c then Some(0)
    else match FirstIndexOf(s[1..], c)
      case None => None
      case Some(i) =>
        assert s[1..][..i] == s[1..i + 1];
        assert s[..i + 1] == [s[0]] + s[1..i + 1];
        Some(i + 1)
  }

  /** The payload of a mask string. A string that starts with "data" is cut after its first
      comma; one that starts with "data" and has no comma has no payload (indexing the second
      part of the split fails); any other string is its own payload. */
  function StripHeader(s: string): (r: Option<string>)
    ensures !("data" <= s) ==> r == Some(s)
    ensures "data" <= s ==> (r.None? <==> ',' !in s)
    ensures "data" <= s && r.Some? ==>
      exists i :: 0 <= i < |s| && s[i] == ',' && ',' !in s[..i] && r.value == s[i + 1..]
  {
    if "data" <= s then
      match FirstIndexOf(s, ',')
      case None => None
      case Some(i) => Some(s[i + 1..])
    else Some(s)
  }

  /** Stripping undoes the prefixing of a payload with a comma-free "data..." header. */
  lemma HeaderRoundTrip(header: string, payload: string)
    requires "data" <= header && ',' !in header
    ensures StripHeader(header + "," + payload) == Some(payload)
  {
    var s := header + "," + payload;
    assert s[..|header|] == header;
    assert "data" <= s;
    assert s[|header|] == ',';
    var i := FirstIndexOf(s, ',').value;
    assert forall j :: 0 <= j < |header| ==> s[j] == header[j];
    assert i == |header|;
    assert s[i + 1..] == payload;
  }
}
