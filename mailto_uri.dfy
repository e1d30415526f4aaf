/**
 * A reader for `mailto` URIs as RFC 6068 (section 2) lays them out:
 * `mailto:` then the address part, then optionally `?` and hfields
 * `name=value` joined by `&`, each name and value percent-encoded. The
 * address part is returned as written, without percent-decoding.
 */
module MailtoUri {
  import opened Wrappers
  import opened Strings
  import UriComponent

  datatype Hfield = Hfield(name: string, value: string)

  datatype Mailto = Mailto(to: string, hfields: seq<Hfield>)

  const Scheme: string := "mailto:"

  /** One `name=value` pair, split at its first '='. */
  function ParseHfield(part: string): Option<Hfield> {
    if '=' !in part then None
    else
      var i := IndexOf(part, '=');
      match (UriComponent.PercentDecode(part[..i]), UriComponent.PercentDecode(part[i + 1..]))
      case (Some(n), Some(v)) => Some(Hfield(n, v))
      case _ => None
  }

  function ParseHfields(parts: seq<string>): (r: Option<seq<Hfield>>)
    ensures r.Some? ==> |r.value| == |parts|
  {
    if parts == [] then Some([])
    else
      match ParseHfield(parts[0])
      case None => None
      case Some(f) =>
        match ParseHfields(parts[1..])
        case None => None
        case Some(fs) => Some([f] + fs)
  }

  /**
   * Reads a whole URI, or rejects it when the scheme or a header field is
   * malformed. A fragment, from the first '#' on, is not part of the
   * mailto data and is set aside.
   */
  function Parse(uri: string): Option<Mailto> {
    ParseBeforeFragment(if '#' in uri then uri[..IndexOf(uri, '#')] else uri)
  }

  function ParseBeforeFragment(uri: string): Option<Mailto> {
    if !StartsWith(uri, Scheme) then None
    else
      var rest := uri[|Scheme|..];
      if '?' !in rest then Some(Mailto(rest, []))
      else
        var i := IndexOf(rest, '?');
        match ParseQuery(rest[i + 1..])
        case None => None
        case Some(fs) => Some(Mailto(rest[..i], fs))
  }

  /** The hfields after '?': `&`-separated, every one of them well-formed. */
  function ParseQuery(query: string): Option<seq<Hfield>> {
    ParseHfields(Split(query, '&'))
  }

  /**
   * A header field written as `name=` and the encoded value reads back as
   * the original pair, whatever the value holds.
   */
  lemma ParseEncodedHfield(name: string, value: string)
    requires IsPlainName(name)
    ensures ParseHfield(EncodedHfield(name, value)) == Some(Hfield(name, value))
  {
    var enc := UriComponent.EncodeURIComponent(value);
    var part := name + "=" + enc;
    assert '=' !in name;
    IndexOfAfter(name, '=', enc);
    assert part[..|name|] == name && part[|name| + 1..] == enc;
    UriComponent.EncodeUnreservedText(name);
    UriComponent.DecodeEncode(name);
    UriComponent.DecodeEncode(value);
  }

  /** Header field text as a builder writes it: the name, '=', the encoded value. */
  function EncodedHfield(name: string, value: string): string {
    name + "=" + UriComponent.EncodeURIComponent(value)
  }

  predicate IsPlainName(name: string) {
    forall k :: 0 <= k < |name| ==> UriComponent.IsUnreserved(name[k])
  }

  lemma EncodedHfieldHasNoDelimiters(name: string, value: string)
    requires IsPlainName(name)
    ensures '&' !in EncodedHfield(name, value) && '#' !in EncodedHfield(name, value)
  {
    UriComponent.EncodedHasNoDelimiters(value);
    assert '&' !in name && '#' !in name by {
      assert forall k :: 0 <= k < |name| ==> name[k] != '&' && name[k] != '#';
    }
  }

  /** The address runs up to the first '?', the query after it. */
  lemma ParseWithQuery(to: string, query: string)
    requires '?' !in to
    ensures ParseBeforeFragment(Scheme + to + "?" + query)
         == match ParseQuery(query) case None => None case Some(fs) => Some(Mailto(to, fs))
  {
    var rest := to + ['?'] + query;
    var uri := Scheme + rest;
    assert Scheme + to + "?" + query == uri;
    assert uri[..|Scheme|] == Scheme && uri[|Scheme|..] == rest;
    IndexOfAfter(to, '?', query);
    assert rest[..|to|] == to && rest[|to| + 1..] == query;
  }

  lemma SplitTwo(p1: string, p2: string, h1: Hfield, h2: Hfield)
    requires '&' !in p1 && '&' !in p2
    requires ParseHfield(p1) == Some(h1) && ParseHfield(p2) == Some(h2)
    ensures ParseQuery(p1 + "&" + p2) == Some([h1, h2])
  {
    SplitPair(p1, p2);
    ParseHfieldsPair(p1, p2, h1, h2);
  }

  lemma SplitPair(p1: string, p2: string)
    requires '&' !in p1 && '&' !in p2
    ensures Split(p1 + "&" + p2, '&') == [p1, p2]
  {
    SplitAfter(p1, '&', p2);
  }

  lemma ParseHfieldsPair(p1: string, p2: string, h1: Hfield, h2: Hfield)
    requires ParseHfield(p1) == Some(h1) && ParseHfield(p2) == Some(h2)
    ensures ParseHfields([p1, p2]) == Some([h1, h2])
  {
    assert [p1, p2][1..] == [p2];
    assert [p2][1..] == [];
    assert ParseHfields([]) == Some([]);
    assert ParseHfields([p2]) == Some([h2] + []);
    assert [h2] + [] == [h2];
    assert [h1] + [h2] == [h1, h2];
  }

  lemma ParseQueryTwo(n1: string, v1: string, n2: string, v2: string)
    requires IsPlainName(n1) && IsPlainName(n2)
    ensures ParseQuery(EncodedHfield(n1, v1) + "&" + EncodedHfield(n2, v2)) == Some([Hfield(n1, v1), Hfield(n2, v2)])
  {
    var f1, f2 := EncodedHfield(n1, v1), EncodedHfield(n2, v2);
    EncodedHfieldHasNoDelimiters(n1, v1);
    EncodedHfieldHasNoDelimiters(n2, v2);
    ParseEncodedHfield(n1, v1);
    ParseEncodedHfield(n2, v2);
    SplitTwo(f1, f2, Hfield(n1, v1), Hfield(n2, v2));
  }

  /**
   * A URI written as `mailto:<to>?n1=enc(v1)&n2=enc(v2)` reads back as the
   * address `to` and exactly the two pairs, in order, whenever `to` has no
   * '?' or '#' and the names are plain.
   */
  lemma ParseTwoFields(to: string, n1: string, v1: string, n2: string, v2: string)
    requires '?' !in to && '#' !in to && IsPlainName(n1) && IsPlainName(n2)
    ensures Parse(Scheme + to + "?" + EncodedHfield(n1, v1) + "&" + EncodedHfield(n2, v2))
         == Some(Mailto(to, [Hfield(n1, v1), Hfield(n2, v2)]))
  {
    var query := EncodedHfield(n1, v1) + "&" + EncodedHfield(n2, v2);
    assert Scheme + to + "?" + EncodedHfield(n1, v1) + "&" + EncodedHfield(n2, v2) == Scheme + to + "?" + query;
    EncodedHfieldHasNoDelimiters(n1, v1);
    EncodedHfieldHasNoDelimiters(n2, v2);
    assert '#' !in Scheme + to + "?" + query;
    ParseWithQuery(to, query);
    ParseQueryTwo(n1, v1, n2, v2);
  }
}
