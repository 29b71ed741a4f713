/** CertificateUtils.java: duplicate removal for query results, the hex preview
    of byte arrays, and the download file name of a certificate. */
module CertificateUtils {
  import opened Wrappers
  import opened JavaLang
  import opened CertificateBean

  //==========================================================================
  // removeDuplicates
  //==========================================================================

  /** No key occurs twice. */
  predicate Distinct<K(==)>(ks: seq<K>) {
    forall i, j :: 0 <= i < j < |ks| ==> ks[i] != ks[j]
  }

  /** The elements of xs that are the first of their class, in their order in xs,
      where xs[i] and xs[j] are in one class exactly when keys[i] == keys[j].
      This is what a LinkedHashSet filled from xs holds, since add keeps the
      element already present. */
  function FirstOccurrences<T, K(==)>(xs: seq<T>, keys: seq<K>): (r: seq<T>)
    requires |xs| == |keys|
    ensures |r| <= |xs|
  {
    if xs == [] then []
    else
      var n := |xs| - 1;
      FirstOccurrences(xs[..n], keys[..n]) + (if keys[n] in keys[..n] then [] else [xs[n]])
  }

  /** The positions FirstOccurrences keeps. */
  function KeptIndices<K(==)>(keys: seq<K>): (idx: seq<nat>)
    ensures forall j :: 0 <= j < |idx| ==> idx[j] < |keys|
  {
    if keys == [] then []
    else
      var n := |keys| - 1;
      KeptIndices(keys[..n]) + (if keys[n] in keys[..n] then [] else [n])
  }

  /** The result of FirstOccurrences is xs read at the kept positions. */
  lemma {:induction false} FirstOccurrencesAt<T, K>(xs: seq<T>, keys: seq<K>)
    requires |xs| == |keys|
    ensures |FirstOccurrences(xs, keys)| == |KeptIndices(keys)|
    ensures forall j :: 0 <= j < |KeptIndices(keys)| ==>
              FirstOccurrences(xs, keys)[j] == xs[KeptIndices(keys)[j]]
  {
    if xs != [] {
      var n := |xs| - 1;
      FirstOccurrencesAt(xs[..n], keys[..n]);
    }
  }

  /** The kept positions ascend strictly: survivors keep their input order. */
  lemma {:induction false} KeptIndicesAscend<K>(keys: seq<K>)
    ensures forall a, b :: 0 <= a < b < |KeptIndices(keys)| ==>
              KeptIndices(keys)[a] < KeptIndices(keys)[b]
  {
    if keys != [] {
      var n := |keys| - 1;
      KeptIndicesAscend(keys[..n]);
    }
  }

  /** A position is kept exactly when its key does not occur earlier: each
      survivor is the first of its class. */
  lemma {:induction false} KeptIndicesAreFirstOccurrences<K>(keys: seq<K>)
    ensures forall i :: i in KeptIndices(keys) <==> 0 <= i < |keys| && keys[i] !in keys[..i]
  {
    if keys != [] {
      var n := |keys| - 1;
      var p := keys[..n];
      var ip := KeptIndices(p);
      KeptIndicesAreFirstOccurrences(p);
      assert KeptIndices(keys) == ip + (if keys[n] in p then [] else [n]);
      forall i | 0 <= i < |keys|
        ensures i in KeptIndices(keys) <==> keys[i] !in keys[..i]
      {
        if i < n {
          assert p[i] == keys[i] && p[..i] == keys[..i];
          assert n !in ip;
        } else {
          assert keys[..i] == p;
        }
      }
    }
  }

  /** No two survivors are equal. */
  lemma DedupHasNoDuplicates<K>(keys: seq<K>)
    ensures Distinct(FirstOccurrences(keys, keys))
  {
    var r, idx := FirstOccurrences(keys, keys), KeptIndices(keys);
    FirstOccurrencesAt(keys, keys);
    KeptIndicesAscend(keys);
    KeptIndicesAreFirstOccurrences(keys);
    forall a, b | 0 <= a < b < |r|
      ensures r[a] != r[b]
    {
      assert idx[b] in idx;
      assert keys[idx[b]] !in keys[..idx[b]];
      assert keys[..idx[b]][idx[a]] == keys[idx[a]];
    }
  }

  /** Every input element has an equal survivor, and every survivor is an input. */
  lemma {:induction false} DedupCoversInput<K>(keys: seq<K>)
    ensures forall k :: k in FirstOccurrences(keys, keys) <==> k in keys
  {
    if keys != [] {
      var n := |keys| - 1;
      DedupCoversInput(keys[..n]);
      assert keys == keys[..n] + [keys[n]];
    }
  }

  /** A list whose keys are already distinct is left as it is. */
  lemma {:induction false} DistinctKeysKeepAll<T, K>(xs: seq<T>, keys: seq<K>)
    requires |xs| == |keys| && Distinct(keys)
    ensures FirstOccurrences(xs, keys) == xs
  {
    if xs != [] {
      var n := |xs| - 1;
      assert Distinct(keys[..n]);
      assert keys[n] !in keys[..n];
      DistinctKeysKeepAll(xs[..n], keys[..n]);
      assert xs == xs[..n] + [xs[n]];
    }
  }

  /** Removing duplicates twice removes nothing more the second time. */
  lemma DedupIdempotent<T, K>(xs: seq<T>, keys: seq<K>)
    requires |xs| == |keys|
    ensures |FirstOccurrences(xs, keys)| == |FirstOccurrences(keys, keys)|
    ensures FirstOccurrences(FirstOccurrences(xs, keys), FirstOccurrences(keys, keys))
            == FirstOccurrences(xs, keys)
  {
    FirstOccurrencesAt(xs, keys);
    FirstOccurrencesAt(keys, keys);
    DedupHasNoDuplicates(keys);
    DistinctKeysKeepAll(FirstOccurrences(xs, keys), FirstOccurrences(keys, keys));
  }

  /** After duplicate removal of certificates, the survivors' equality fields are
      the deduplicated fields, so the survivors are pairwise unequal and, in
      particular, pairwise different objects. */
  lemma DedupCertificatesDistinct(s: seq<Certificate>)
    ensures var d := FirstOccurrences(s, FieldsOf(s));
            FieldsOf(d) == FirstOccurrences(FieldsOf(s), FieldsOf(s))
            && forall i, j :: 0 <= i < j < |d| ==> !d[i].Equals(d[j]) && d[i] != d[j]
  {
    var keys := FieldsOf(s);
    var d := FirstOccurrences(s, keys);
    FirstOccurrencesAt(s, keys);
    FirstOccurrencesAt(keys, keys);
    DedupHasNoDuplicates(keys);
    assert FieldsOf(d) == FirstOccurrences(keys, keys);
  }

  /** Certificate lists deduplicated once are deduplicated for good. */
  lemma DedupCertificatesIdempotent(s: seq<Certificate>)
    ensures var d := FirstOccurrences(s, FieldsOf(s));
            FirstOccurrences(d, FieldsOf(d)) == d
  {
    DedupCertificatesDistinct(s);
    DedupIdempotent(s, FieldsOf(s));
  }

  /** One more input element extends the survivors by it exactly when its key is new. */
  lemma FirstOccurrencesExtend<T, K>(xs: seq<T>, keys: seq<K>, i: nat)
    requires |xs| == |keys| && i < |xs|
    ensures FirstOccurrences(xs[..i + 1], keys[..i + 1])
            == FirstOccurrences(xs[..i], keys[..i]) + (if keys[i] in keys[..i] then [] else [xs[i]])
  {
    assert xs[..i + 1][..i] == xs[..i] && keys[..i + 1][..i] == keys[..i];
  }

  /** removeDuplicates, at its one use, a list of certificates: the list is
      emptied and refilled with the survivors, and the same list is returned. */
  method RemoveDuplicates(list: ArrayList<Certificate>) returns (r: ArrayList<Certificate>)
    modifies list
    ensures r == list
    ensures list.items == FirstOccurrences(old(list.items), old(FieldsOf(list.items)))
  {
    var items := list.items;
    ghost var keys := FieldsOf(items);
    // set.addAll(list): the LinkedHashSet as the keys it holds and its order
    var seen: set<EqualityFields> := {};
    var linked: seq<Certificate> := [];
    var i := 0;
    while i < |items|
      invariant 0 <= i <= |items|
      invariant linked == FirstOccurrences(items[..i], keys[..i])
      invariant forall k :: k in seen <==> k in keys[..i]
    {
      var c := items[i];
      FirstOccurrencesExtend(items, keys, i);
      assert keys[..i + 1] == keys[..i] + [keys[i]];
      if c.HashedFields() !in seen {
        seen := seen + {c.HashedFields()};
        linked := linked + [c];
      }
      i := i + 1;
    }
    assert items[..i] == items && keys[..i] == keys;
    list.items := [];                  // list.clear()
    list.items := list.items + linked; // list.addAll(set)
    assert list.items == linked;
    r := list;
  }

  //==========================================================================
  // bytesToHex
  //==========================================================================

  const HEX_ARRAY: string := "0123456789ABCDEF"

  /** `(b & 0xFF) >>> 4`: the unsigned high nibble (v >>> 4 is v / 16 for the
      non-negative v = b & 0xFF). */
  function HighNibble(b: Byte): (h: nat)
    ensures h < 16
  {
    (b as int) / 16
  }

  /** `(b & 0xFF) & 0x0F`: the low nibble (v % 16 for that v). */
  function LowNibble(b: Byte): (l: nat)
    ensures l < 16
  {
    (b as int) % 16
  }

  /** Text made of hex digits only, as bytesToHex writes. */
  predicate IsHexText(s: string) {
    forall i :: 0 <= i < |s| ==> s[i] in HEX_ARRAY
  }

  /** The text bytesToHex produces: two hex digits per byte, high nibble first. */
  function Hex(bytes: seq<Byte>): (s: string)
    ensures |s| == 2 * |bytes|
    ensures IsHexText(s)
  {
    seq(2 * |bytes|, k requires 0 <= k < 2 * |bytes| => HexDigitAt(bytes, k))
  }

  /** Character k of the hex text: a digit of byte k / 2, its high nibble at
      even k and its low nibble at odd k. */
  function HexDigitAt(bytes: seq<Byte>, k: nat): char
    requires k < 2 * |bytes|
  {
    if k % 2 == 0 then HEX_ARRAY[HighNibble(bytes[k / 2])] else HEX_ARRAY[LowNibble(bytes[k / 2])]
  }

  /** bytesToHex, filling a char array two digits at a time. */
  method BytesToHex(bytes: seq<Byte>) returns (s: string)
    ensures s == Hex(bytes)
  {
    ghost var h := Hex(bytes);
    var hexChars := new char[|bytes| * 2];
    for j := 0 to |bytes|
      invariant hexChars[..2 * j] == h[..2 * j]
    {
      var v := bytes[j];
      hexChars[j * 2] := HEX_ARRAY[HighNibble(v)];
      hexChars[j * 2 + 1] := HEX_ARRAY[LowNibble(v)];
      HexDigitsOfByte(bytes, j);
      assert hexChars[..2 * j + 2] == hexChars[..2 * j] + [h[2 * j], h[2 * j + 1]];
    }
    assert hexChars[..] == hexChars[..2 * |bytes|];
    s := hexChars[..];
  }

  /** The value of a hex digit. */
  function HexValue(c: char): (v: nat)
    ensures v < 16
  {
    if '0' <= c <= '9' then c as int - '0' as int
    else if 'A' <= c <= 'F' then c as int - 'A' as int + 10
    else 0
  }

  /** The byte two hex digits stand for. */
  function HexPair(hi: char, lo: char): Byte {
    (HexValue(hi) * 16 + HexValue(lo)) as Byte
  }

  /** Reads two hex digits per byte; None for text bytesToHex cannot produce. */
  function HexDecode(s: string): Option<seq<Byte>> {
    if |s| % 2 != 0 || !IsHexText(s) then None
    else Some(seq(|s| / 2, j requires 0 <= j < |s| / 2 => HexPair(s[2 * j], s[2 * j + 1])))
  }

  lemma HexValueOfDigit(h: nat)
    requires h < 16
    ensures HexValue(HEX_ARRAY[h]) == h
  {
  }

  /** The two digits written for a byte read back as that byte. */
  lemma HexPairRoundTrip(b: Byte)
    ensures HexPair(HEX_ARRAY[HighNibble(b)], HEX_ARRAY[LowNibble(b)]) == b
  {
    HexValueOfDigit(HighNibble(b));
    HexValueOfDigit(LowNibble(b));
    assert HighNibble(b) * 16 + LowNibble(b) == b as int;
    assert (b as int) as Byte == b;
  }

  /** Byte j of the input is written at positions 2j and 2j + 1. */
  lemma HexDigitsOfByte(bytes: seq<Byte>, j: nat)
    requires j < |bytes|
    ensures Hex(bytes)[2 * j] == HEX_ARRAY[HighNibble(bytes[j])]
    ensures Hex(bytes)[2 * j + 1] == HEX_ARRAY[LowNibble(bytes[j])]
  {
    var k := 2 * j;
    assert Hex(bytes)[k] == HexDigitAt(bytes, k) && Hex(bytes)[k + 1] == HexDigitAt(bytes, k + 1);
    assert k / 2 == j && k % 2 == 0;
    assert (k + 1) / 2 == j && (k + 1) % 2 == 1;
  }

  /** Byte j of a decoding is read from characters 2j and 2j + 1. */
  lemma HexDecodeAt(s: string, j: nat)
    requires HexDecode(s).Some? && j < |HexDecode(s).value|
    ensures 2 * j + 1 < |s| && HexDecode(s).value[j] == HexPair(s[2 * j], s[2 * j + 1])
  {
  }

  /** Hex text decodes back to the bytes, so bytesToHex is injective. */
  lemma HexRoundTrip(bytes: seq<Byte>)
    ensures HexDecode(Hex(bytes)) == Some(bytes)
  {
    var s := Hex(bytes);
    var d := HexDecode(s).value;
    assert |d| == |bytes|;
    forall j | 0 <= j < |bytes|
      ensures d[j] == bytes[j]
    {
      HexDigitsOfByte(bytes, j);
      HexDecodeAt(s, j);
      HexPairRoundTrip(bytes[j]);
    }
    assert d == bytes;
  }

  //==========================================================================
  // generateCertificateFilename
  //==========================================================================

  /** first_last_TYPE_recordID.pdf, from the four values it is built of. */
  function FileName(first: string, last: string, t: Option<CertificateType>, recordID: int): string {
    first + "_" + last + "_" + TypeName(t) + "_" + IntToString(recordID) + ".pdf"
  }

  /** generateCertificateFilename. */
  function GenerateCertificateFilename(c: Certificate): string
    reads c
  {
    FileName(c.firstName, c.lastName, c.certificateType, c.recordID)
  }

  lemma ConcatAssoc(a: string, b: string, c: string)
    ensures a + b + c == a + (b + c)
  {
  }

  /** FileName regrouped as a first field followed by the rest. */
  lemma FileNameSplit(first: string, last: string, t: Option<CertificateType>, recordID: int)
    ensures FileName(first, last, t, recordID)
            == first + ("_" + (last + ("_" + (TypeName(t) + ("_" + (IntToString(recordID) + ".pdf"))))))
  {
    var ts, ids := TypeName(t), IntToString(recordID);
    var tail := "_" + (ids + ".pdf");
    ConcatAssoc(first + "_" + last + "_" + ts, "_" + ids, ".pdf");
    ConcatAssoc(first + "_" + last + "_" + ts, "_", ids);
    ConcatAssoc("_", ids, ".pdf");
    ConcatAssoc(first + "_" + last + "_", ts, tail);
    ConcatAssoc(first + "_" + last, "_", ts + tail);
    ConcatAssoc(first + "_", last, "_" + (ts + tail));
    ConcatAssoc(first, "_", last + ("_" + (ts + tail)));
  }

  /** When names hold no underscore, the file name determines the first name,
      last name, type and record number it was built of. */
  lemma FileNameInjective(f1: string, l1: string, t1: Option<CertificateType>, r1: int,
                          f2: string, l2: string, t2: Option<CertificateType>, r2: int)
    requires '_' !in f1 && '_' !in l1 && '_' !in f2 && '_' !in l2
    requires FileName(f1, l1, t1, r1) == FileName(f2, l2, t2, r2)
    ensures f1 == f2 && l1 == l2 && t1 == t2 && r1 == r2
  {
    var ta, tb := TypeName(t1), TypeName(t2);
    var ia, ib := IntToString(r1), IntToString(r2);
    var r3a, r3b := "_" + (ia + ".pdf"), "_" + (ib + ".pdf");
    var r2a, r2b := "_" + (ta + r3a), "_" + (tb + r3b);
    var r1a, r1b := "_" + (l1 + r2a), "_" + (l2 + r2b);
    FileNameSplit(f1, l1, t1, r1);
    FileNameSplit(f2, l2, t2, r2);
    PrefixBeforeDelimiter(f1, r1a, f2, r1b, '_');
    assert r1a[1..] == l1 + r2a && r1b[1..] == l2 + r2b;
    PrefixBeforeDelimiter(l1, r2a, l2, r2b, '_');
    assert r2a[1..] == ta + r3a && r2b[1..] == tb + r3b;
    assert '_' !in ta && '_' !in tb;
    PrefixBeforeDelimiter(ta, r3a, tb, r3b, '_');
    assert r3a[1..] == ia + ".pdf" && r3b[1..] == ib + ".pdf";
    IntToStringAlphabet(r1);
    IntToStringAlphabet(r2);
    PrefixBeforeDelimiter(ia, ".pdf", ib, ".pdf", '.');
    IntToStringRoundTrip(r1);
    IntToStringRoundTrip(r2);
  }
}
