/**
 * The MAC address of a reading: the last `/`-segment of the topic, and its
 * normal form (`replaceAll(':', '').toLowerCase()`) used as the device key.
 */
module Mac {
  import opened JsText

  /** `/[^/]*$/.exec(topic)[0]`: the longest suffix of the topic without a `/`. */
  function TopicMac(topic: string): (mac: string)
    ensures '/' !in mac
    ensures |mac| <= |topic| && topic[|topic| - |mac|..] == mac
    ensures |mac| < |topic| ==> topic[|topic| - |mac| - 1] == '/'
    decreases |topic|
  {
    if topic == [] || topic[|topic| - 1] == '/' then []
    else
      var front := topic[..|topic| - 1];
      var mac := TopicMac(front) + [topic[|topic| - 1]];
      assert topic == front + [topic[|topic| - 1]];
      mac
  }

  /** The MAC of a topic `<prefix>/<mac>` is `mac`, whatever the prefix. */
  lemma TopicMacLastSegment(prefix: string, mac: string)
    requires '/' !in mac
    ensures TopicMac(prefix + "/" + mac) == mac
  {
    var t := prefix + "/" + mac;
    var r := TopicMac(t);
    assert t[|t| - |mac| - 1] == '/';
    assert t[|t| - |mac|..] == mac;
    var m: nat, n: nat := |mac|, |r|;
    if n > m {
      SlashInSuffix(t, r, m);
      assert false;
    }
    if n < m {
      SlashInSuffix(t, mac, n);
      assert false;
    }
  }

  lemma SlashInSuffix(t: string, r: string, n: nat)
    requires |r| <= |t| && t[|t| - |r|..] == r && n < |r| && t[|t| - n - 1] == '/'
    ensures '/' in r
  {
    assert r[|r| - n - 1] == t[|t| - n - 1];
  }

  /** A device key: no `:` separators and no upper-case letters. */
  predicate IsNormalized(key: string) {
    ':' !in key && forall k :: 0 <= k < |key| ==> !IsUpper(key[k])
  }

  function NormalizeMac(mac: string): (key: string)
    ensures IsNormalized(key)
    ensures |key| <= |mac|
  {
    var bare := RemoveChar(mac, ':');
    var key := ToLowerCase(bare);
    assert ':' !in key by {
      forall k | 0 <= k < |key|
        ensures key[k] != ':'
      {
        assert bare[k] in bare;
      }
    }
    key
  }

  lemma {:induction false} LowerCaseFixed(s: string)
    requires forall k :: 0 <= k < |s| ==> !IsUpper(s[k])
    ensures ToLowerCase(s) == s
  {
  }

  /** A key already in normal form is its own normal form. */
  lemma NormalizeFixesKeys(key: string)
    requires IsNormalized(key)
    ensures NormalizeMac(key) == key
  {
    RemoveAbsentChar(key, ':');
    LowerCaseFixed(key);
  }

  /** Normalisation is idempotent. */
  lemma NormalizeIdempotent(mac: string)
    ensures NormalizeMac(NormalizeMac(mac)) == NormalizeMac(mac)
  {
    NormalizeFixesKeys(NormalizeMac(mac));
  }
}
