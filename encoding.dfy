/** The input decoding every converter starts with: the encodings are tried
    in a fixed order, the first that reads the whole file wins, and leading
    byte order marks are removed from the text it yields. The codecs
    themselves are not modelled: `decode` stands for opening the file with
    one encoding and reading it, `None` for any exception that raises. */
module Encoding {
  import opened Wrappers

  newtype byte = x: int | 0 <= x < 256

  datatype Codec = Utf8 | ShiftJis | Cp932

  /** `ENCODINGS_TO_TRY`, in order of preference. */
  const Candidates: seq<Codec> := [Utf8, ShiftJis, Cp932]

  type Decoder = (Codec, seq<byte>) -> Option<string>

  const Bom: char := '\U{FEFF}'

  /** `text.lstrip('\ufeff')`: every leading byte order mark is removed. */
  function StripBoms(text: string): (r: string)
    ensures |r| <= |text| && r == text[|text| - |r|..]
    ensures forall k :: 0 <= k < |text| - |r| ==> text[k] == Bom
    ensures r == [] || r[0] != Bom
    decreases |text|
  {
    if text != [] && text[0] == Bom then StripBoms(text[1..]) else text
  }

  /** Reference: the first of `codecs` under which `decode` succeeds, with
      its text. */
  function FirstDecoded(raw: seq<byte>, decode: Decoder, codecs: seq<Codec>): Option<(Codec, string)>
    decreases |codecs|
  {
    if codecs == [] then None
    else match decode(codecs[0], raw)
      case Some(text) => Some((codecs[0], text))
      case None => FirstDecoded(raw, decode, codecs[1..])
  }

  /** The first success is a candidate that decodes, every earlier one
      fails, and there is no success exactly when every candidate fails. */
  lemma {:induction false} FirstDecodedIsFirst(raw: seq<byte>, decode: Decoder, codecs: seq<Codec>)
    ensures FirstDecoded(raw, decode, codecs).None?
            <==> forall k :: 0 <= k < |codecs| ==> decode(codecs[k], raw).None?
    ensures FirstDecoded(raw, decode, codecs).Some? ==>
              var (c, text) := FirstDecoded(raw, decode, codecs).value;
              exists k :: 0 <= k < |codecs| && codecs[k] == c && decode(c, raw) == Some(text)
                          && forall m :: 0 <= m < k ==> decode(codecs[m], raw).None?
    decreases |codecs|
  {
    if codecs != [] {
      var tail := codecs[1..];
      FirstDecodedIsFirst(raw, decode, tail);
      assert forall k :: 1 <= k < |codecs| ==> codecs[k] == tail[k - 1];
      if decode(codecs[0], raw).None? && FirstDecoded(raw, decode, tail).Some? {
        var (c, text) := FirstDecoded(raw, decode, tail).value;
        var k :| 0 <= k < |tail| && tail[k] == c && decode(c, raw) == Some(text)
                 && forall m :: 0 <= m < k ==> decode(tail[m], raw).None?;
        assert codecs[k + 1] == c;
        forall m | 0 <= m < k + 1 ensures decode(codecs[m], raw).None? {
          if m > 0 { assert codecs[m] == tail[m - 1]; }
        }
      }
      if decode(codecs[0], raw).None? && FirstDecoded(raw, decode, tail).None? {
        forall k | 0 <= k < |codecs| ensures decode(codecs[k], raw).None? {
          if k > 0 { assert codecs[k] == tail[k - 1]; }
        }
      }
    }
  }

  /** The text the converters go on to parse, or `None` when no encoding
      reads the file. */
  function ReadText(raw: seq<byte>, decode: Decoder): Option<string> {
    match FirstDecoded(raw, decode, Candidates)
    case None => None
    case Some((_, text)) => Some(StripBoms(text))
  }

  /** The loop over `ENCODINGS_TO_TRY`: a failing candidate moves on to the
      next, the first success stops the search. */
  method Resolve(raw: seq<byte>, decode: Decoder) returns (detected: Option<Codec>, text: Option<string>)
    ensures text == ReadText(raw, decode)
    ensures detected.Some? <==> text.Some?
    ensures detected.Some? ==> FirstDecoded(raw, decode, Candidates).value.0 == detected.value
  {
    detected := None;
    text := None;
    var i := 0;
    while i < |Candidates|
      invariant 0 <= i <= |Candidates|
      invariant FirstDecoded(raw, decode, Candidates) == FirstDecoded(raw, decode, Candidates[i..])
      invariant detected.None? && text.None?
    {
      var attempt := decode(Candidates[i], raw);
      if attempt.Some? {
        text := Some(StripBoms(attempt.value));
        detected := Some(Candidates[i]);
        break;
      }
      assert Candidates[i..][1..] == Candidates[i + 1..];
      i := i + 1;
    }
    if detected.None? {
      assert Candidates[i..] == [];
    }
  }

  /** A file that reads as UTF-8 is never tried under another encoding. */
  lemma Utf8First(raw: seq<byte>, decode: Decoder)
    requires decode(Utf8, raw).Some?
    ensures ReadText(raw, decode) == Some(StripBoms(decode(Utf8, raw).value))
  {
  }

  /** The text handed on is the text of the first candidate that decodes,
      with its leading byte order marks removed (see `StripBoms`). */
  lemma ReadTextSpec(raw: seq<byte>, decode: Decoder)
    ensures ReadText(raw, decode).None?
            <==> forall k :: 0 <= k < |Candidates| ==> decode(Candidates[k], raw).None?
    ensures ReadText(raw, decode).Some? ==>
              exists k :: 0 <= k < |Candidates| && decode(Candidates[k], raw).Some?
                          && (forall m :: 0 <= m < k ==> decode(Candidates[m], raw).None?)
                          && ReadText(raw, decode).value == StripBoms(decode(Candidates[k], raw).value)
  {
    FirstDecodedIsFirst(raw, decode, Candidates);
  }

  /** Two byte order marks are both removed. */
  lemma DoubleBom(text: string)
    ensures StripBoms([Bom, Bom] + text) == StripBoms(text)
  {
    assert ([Bom, Bom] + text)[1..] == [Bom] + text;
    assert ([Bom] + text)[1..] == text;
  }
}
