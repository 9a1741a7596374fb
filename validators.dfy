/** The upload filters `mediaFileFilter` and `audioFileFilter`.  Each tests the
    upload's MIME type against a regular expression of the form
    `/\/(a|b|...)$/` and calls the upload callback once: with an
    UNSUPPORTED_MEDIA_TYPE exception and `false`, or with `null` and `true`. */
module Validators {
  import opened Wrappers
  import opened Errors
  import opened Strings

  const MediaSubtypes: seq<string> := ["jpg", "jpeg", "png", "gif", "mp4", "mov"]
  const AudioSubtypes: seq<string> := ["mp3", "mpeg", "wav", "ogg"]

  const MediaRejected: string := "Only image and video files are allowed!"
  const AudioRejected: string := "Only audio files are allowed!"

  /** One call of the upload callback `(error, acceptFile)`. */
  datatype CallbackCall = CallbackCall(error: Option<Error>, acceptFile: bool)

  /** The reading of the pattern: the MIME type ends with `/` and one of the subtypes. */
  predicate HasSubtype(mimetype: string, subtypes: seq<string>) {
    exists s :: s in subtypes && EndsWith(mimetype, "/" + s)
  }

  /** The group `(a|b|...)` followed by `$`, tried alternative by alternative at position `j`. */
  function AlternativeAtEnd(m: string, j: nat, alts: seq<string>): (matched: bool)
    requires j <= |m|
    ensures matched <==> m[j..] in alts
    decreases |alts|
  {
    if alts == [] then false
    else
      var a := alts[0];
      assert alts == [a] + alts[1..];
      assert j + |a| == |m| ==> m[j..j + |a|] == m[j..];
      (j + |a| == |m| && m[j..j + |a|] == a) || AlternativeAtEnd(m, j, alts[1..])
  }

  /** `String.prototype.match` for the pattern: try every start position from `i` on. */
  function SearchFrom(m: string, i: nat, alts: seq<string>): (found: bool)
    requires i <= |m|
    ensures found <==> exists k :: i <= k < |m| && m[k] == '/' && m[k + 1..] in alts
    decreases |m| - i
  {
    if i == |m| then false
    else (m[i] == '/' && AlternativeAtEnd(m, i + 1, alts)) || SearchFrom(m, i + 1, alts)
  }

  function PatternMatches(mimetype: string, alts: seq<string>): bool {
    SearchFrom(mimetype, 0, alts)
  }

  /** The pattern matches exactly the MIME types ending in `/` and a listed subtype. */
  lemma PatternMeansSubtype(m: string, alts: seq<string>)
    ensures PatternMatches(m, alts) <==> HasSubtype(m, alts)
  {
    if PatternMatches(m, alts) {
      var k :| 0 <= k < |m| && m[k] == '/' && m[k + 1..] in alts;
      assert m[k..] == "/" + m[k + 1..];
      assert EndsWith(m, "/" + m[k + 1..]);
    }
    if HasSubtype(m, alts) {
      var s :| s in alts && EndsWith(m, "/" + s);
      var k := |m| - |s| - 1;
      assert m[k..] == "/" + s;
      assert m[k] == '/' && m[k + 1..] == s;
    }
  }

  /** `mediaFileFilter(req, file, callback)`: the calls it makes to `callback`. */
  function MediaFileFilter(mimetype: string): (calls: seq<CallbackCall>)
    ensures |calls| == 1
    ensures calls[0].acceptFile <==> HasSubtype(mimetype, MediaSubtypes)
    ensures calls[0].acceptFile ==> calls[0].error == None
    ensures !calls[0].acceptFile ==>
              calls[0].error == Some(HttpException(MediaRejected, UNSUPPORTED_MEDIA_TYPE))
  {
    PatternMeansSubtype(mimetype, MediaSubtypes);
    if !PatternMatches(mimetype, MediaSubtypes) then
      [CallbackCall(Some(HttpException(MediaRejected, UNSUPPORTED_MEDIA_TYPE)), false)]
    else
      [CallbackCall(None, true)]
  }

  /** `audioFileFilter(req, file, callback)`: the calls it makes to `callback`. */
  function AudioFileFilter(mimetype: string): (calls: seq<CallbackCall>)
    ensures |calls| == 1
    ensures calls[0].acceptFile <==> HasSubtype(mimetype, AudioSubtypes)
    ensures calls[0].acceptFile ==> calls[0].error == None
    ensures !calls[0].acceptFile ==>
              calls[0].error == Some(HttpException(AudioRejected, UNSUPPORTED_MEDIA_TYPE))
  {
    PatternMeansSubtype(mimetype, AudioSubtypes);
    if !PatternMatches(mimetype, AudioSubtypes) then
      [CallbackCall(Some(HttpException(AudioRejected, UNSUPPORTED_MEDIA_TYPE)), false)]
    else
      [CallbackCall(None, true)]
  }

  /** Whatever comes before the final `/subtype` is not looked at. */
  lemma AnyPrefixAccepted(prefix: string, s: string)
    ensures s in MediaSubtypes ==> MediaFileFilter(prefix + "/" + s)[0].acceptFile
    ensures s in AudioSubtypes ==> AudioFileFilter(prefix + "/" + s)[0].acceptFile
  {
    var m := prefix + "/" + s;
    assert m[|m| - |"/" + s|..] == "/" + s;
    assert EndsWith(m, "/" + s);
  }

  lemma SubtypeIsLastSegmentOnly(m: string, s: string)
    requires '/' !in s && EndsWith(m, "/" + s)
    ensures '/' in m && LastSegment(m, '/') == s
  {
    var n := |m|;
    var prefix := m[..n - |s|];
    assert m[n - |s| - 1..] == "/" + s;
    assert prefix[|prefix| - 1] == m[n - |s| - 1] == '/';
    assert prefix + s == m;
    LastSegmentAfter(prefix, '/', s);
  }

  lemma LastSegmentIsSubtype(m: string)
    requires '/' in m
    ensures EndsWith(m, "/" + LastSegment(m, '/'))
  {
    var r := LastSegment(m, '/');
    var n := |m|;
    assert m[n - |r|..] == r;
    assert |r| != n;
    assert m[n - |r| - 1..] == [m[n - |r| - 1]] + m[n - |r|..];
  }

  /** With `/`-free subtypes, a MIME type is accepted exactly when it holds a `/` and the
      text after its last `/` is one of the subtypes. */
  lemma SubtypeIsLastSegment(m: string, alts: seq<string>)
    requires forall k :: 0 <= k < |alts| ==> '/' !in alts[k]
    ensures HasSubtype(m, alts) <==> '/' in m && LastSegment(m, '/') in alts
  {
    if HasSubtype(m, alts) {
      var s :| s in alts && EndsWith(m, "/" + s);
      SubtypeIsLastSegmentOnly(m, s);
    }
    if '/' in m && LastSegment(m, '/') in alts {
      LastSegmentIsSubtype(m);
    }
  }

  /** A MIME type whose text after the last `/` is not listed is refused. */
  lemma {:induction false} RejectedSubtype(kind: string, sub: string, alts: seq<string>)
    requires forall k :: 0 <= k < |alts| ==> '/' !in alts[k]
    requires '/' !in sub && sub !in alts
    ensures !HasSubtype(kind + "/" + sub, alts)
  {
    SubtypeIsLastSegment(kind + "/" + sub, alts);
    assert kind + "/" + sub == (kind + "/") + sub;
    LastSegmentAfter(kind + "/", '/', sub);
  }

  /** A listed subtype after any type is accepted. */
  lemma {:induction false} PngAccepted()
    ensures MediaFileFilter("image/png")[0].acceptFile
  {
    AnyPrefixAccepted("image", "png");
  }

  /** The match is case-sensitive: an upper-case subtype is refused. */
  lemma {:induction false} CaseSensitive()
    ensures !MediaFileFilter("image/PNG")[0].acceptFile
  {
    RejectedSubtype("image", "PNG", MediaSubtypes);
  }

  /** The match is anchored at the end: a parameter after the subtype is refused. */
  lemma {:induction false} AnchoredAtEnd()
    ensures !MediaFileFilter("image/png;x")[0].acceptFile
  {
    RejectedSubtype("image", "png;x", MediaSubtypes);
  }

  /** An audio type is accepted by the audio filter. */
  lemma {:induction false} AudioAccepted()
    ensures AudioFileFilter("audio/mpeg")[0].acceptFile
  {
    AnyPrefixAccepted("audio", "mpeg");
  }

  /** An image type is no audio type. */
  lemma {:induction false} ImageIsNotAudio()
    ensures !AudioFileFilter("image/png")[0].acceptFile
  {
    RejectedSubtype("image", "png", AudioSubtypes);
  }

  /** No subtype of either list holds a `/`. */
  lemma NoSlashInSubtypes(s: string)
    requires s in MediaSubtypes || s in AudioSubtypes
    ensures '/' !in s
  {
  }

  /** No subtype is in both lists. */
  lemma SubtypeListsDisjoint(s: string)
    requires s in MediaSubtypes
    ensures s !in AudioSubtypes
  {
  }

  /** Of two `/subtype` endings of one string, the longer subtype holds the shorter one's `/`. */
  lemma LongerSubtypeHoldsSlash(m: string, s1: string, s2: string)
    requires EndsWith(m, "/" + s1) && EndsWith(m, "/" + s2) && |s1| < |s2|
    ensures s2[|s2| - |s1| - 1] == '/'
  {
    var n := |m|;
    assert m[n - |s1| - 1..] == "/" + s1;
    assert m[n - |s1| - 1] == '/';
    assert m[n - |s2| - 1..] == "/" + s2;
    assert ("/" + s2)[|s2| - |s1|] == m[n - |s1| - 1];
  }

  lemma SameLengthSubtypesEqual(m: string, s1: string, s2: string)
    requires EndsWith(m, "/" + s1) && EndsWith(m, "/" + s2) && |s1| == |s2|
    ensures s1 == s2
  {
    assert s1 == ("/" + s1)[1..] == ("/" + s2)[1..] == s2;
  }

  /** No MIME type is accepted by both filters. */
  lemma {:induction false} FiltersDisjoint(mimetype: string)
    ensures !(MediaFileFilter(mimetype)[0].acceptFile && AudioFileFilter(mimetype)[0].acceptFile)
  {
    if MediaFileFilter(mimetype)[0].acceptFile && AudioFileFilter(mimetype)[0].acceptFile {
      var s1 :| s1 in MediaSubtypes && EndsWith(mimetype, "/" + s1);
      var s2 :| s2 in AudioSubtypes && EndsWith(mimetype, "/" + s2);
      NoSlashInSubtypes(s1);
      NoSlashInSubtypes(s2);
      if |s1| < |s2| {
        LongerSubtypeHoldsSlash(mimetype, s1, s2);
      } else if |s2| < |s1| {
        LongerSubtypeHoldsSlash(mimetype, s2, s1);
      } else {
        SameLengthSubtypesEqual(mimetype, s1, s2);
        SubtypeListsDisjoint(s1);
      }
    }
  }
}
