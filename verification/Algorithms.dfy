/** Which algorithms make a delta, and how their names travel to the updater in a media type. */
module Algorithms {
  datatype Differ = Bsdiff | Tardiff

  datatype Compressor = Nop | Gzip | Zstd

  datatype Choice = Choice(differ: Differ, compressor: Compressor)

  function DifferName(d: Differ): string
  {
    match d
    case Bsdiff => "bsdiff"
    case Tardiff => "tardiff"
  }

  function CompressorName(c: Compressor): string
  {
    match c
    case Nop => ""
    case Gzip => "gzip"
    case Zstd => "zstd"
  }

  function TagSuffix(c: Choice): string
  {
    if CompressorName(c.compressor) != "" then DifferName(c.differ) + "_" + CompressorName(c.compressor)
    else DifferName(c.differ)
  }

  function MediaType(c: Choice): string
  {
    if CompressorName(c.compressor) != "" then
      "application/" + DifferName(c.differ) + "+" + CompressorName(c.compressor)
    else
      "application/" + DifferName(c.differ)
  }

  /** Tar archives go to tardiff without compression where that is accepted; else bsdiff, accepted or not. */
  function ChooseAlgorithms(accepted: seq<string>, unpacked: bool): (c: Choice)
    ensures c.differ == Tardiff <==> unpacked && "tardiff" in accepted
    ensures c.compressor != Nop ==> c.differ == Bsdiff && CompressorName(c.compressor) in accepted
    ensures c.differ == Bsdiff && ("zstd" in accepted || "gzip" in accepted) ==> c.compressor != Nop
    ensures c.compressor == Gzip ==> "zstd" !in accepted
  {
    if unpacked && "tardiff" in accepted then Choice(Tardiff, Nop)
    else if "zstd" in accepted then Choice(Bsdiff, Zstd)
    else if "gzip" in accepted then Choice(Bsdiff, Gzip)
    else Choice(Bsdiff, Nop)
  }

  function TrimPrefix(s: string, prefix: string): string
  {
    if prefix <= s then s[|prefix|..] else s
  }

  function Split(s: string, separator: char): (parts: seq<string>)
    ensures parts != []
  {
    if s == [] then [[]]
    else
      var rest := Split(s[1..], separator);
      if s[0] == separator then [[]] + rest else [[s[0]] + rest[0]] + rest[1..]
  }

  datatype Parsed = Chosen(choice: Choice) | Unsupported | Panic

  /** How the updater reads a media type back. */
  function PatcherChoice(mediaType: string): Parsed
  {
    var parts := Split(TrimPrefix(mediaType, "application/"), '+');
    if |parts| == 2 && parts[1] != "gzip" && parts[1] != "zstd" then Panic
    else
      var compressor := if |parts| != 2 then Nop else if parts[1] == "gzip" then Gzip else Zstd;
      if parts[0] == "bsdiff" then Chosen(Choice(Bsdiff, compressor))
      else if parts[0] == "tardiff" then Chosen(Choice(Tardiff, compressor))
      else Unsupported
  }

  lemma {:induction false} SplitNone(s: string, separator: char)
    requires separator !in s
    ensures Split(s, separator) == [s]
  {
    if s == [] {
    } else {
      SplitNone(s[1..], separator);
      assert [s[0]] + s[1..] == s;
    }
  }

  lemma {:induction false} SplitOnce(a: string, b: string, separator: char)
    requires separator !in a && separator !in b
    ensures Split(a + [separator] + b, separator) == [a, b]
  {
    var s := a + [separator] + b;
    if a == [] {
      assert s[1..] == b;
      SplitNone(b, separator);
    } else {
      assert s[1..] == a[1..] + [separator] + b;
      SplitOnce(a[1..], b, separator);
      assert [s[0]] + a[1..] == a;
    }
  }

  /** The updater patches with just the algorithms that the server chose. */
  lemma MediaTypeRoundTrip(c: Choice)
    ensures PatcherChoice(MediaType(c)) == Chosen(c)
  {
    hide Split;
    var d, z := DifferName(c.differ), CompressorName(c.compressor);
    if z == "" {
      assert TrimPrefix(MediaType(c), "application/") == d;
      SplitNone(d, '+');
    } else {
      assert TrimPrefix(MediaType(c), "application/") == d + "+" + z;
      SplitOnce(d, z, '+');
    }
  }

  /** Different choices have different tags. */
  lemma TagSuffixTells(a: Choice, b: Choice)
    requires TagSuffix(a) == TagSuffix(b)
    ensures a == b
  {
    assert TagSuffix(a)[0] == DifferName(a.differ)[0];
    assert |TagSuffix(a)| == |TagSuffix(b)|;
    if a.compressor != Nop {
      assert TagSuffix(a)[|DifferName(a.differ)| + 1] == CompressorName(a.compressor)[0];
      assert TagSuffix(b)[|DifferName(a.differ)| + 1] == CompressorName(b.compressor)[0];
    }
  }
}
