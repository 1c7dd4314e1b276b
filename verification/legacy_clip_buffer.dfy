/** How the older sources show a stored clip: flattened onto one line, and cropped
    with a summary only when long.  A short multi-line clip is shown flattened,
    without a summary. */
module LegacyClipBuffer {
  import Text
  import ClipBuffer

  /** `ClipBuffer.toString` of the older sources. */
  function Label(clip: string, sep: string): (text: string)
    requires |sep| > 0
    ensures var flat := ClipBuffer.Flatten(clip, sep);
      |flat| <= ClipBuffer.BUFFER_CROP_LENGTH ==> text == flat
    ensures var flat := ClipBuffer.Flatten(clip, sep); var lines := |Text.Split(clip, sep)|;
      |flat| > ClipBuffer.BUFFER_CROP_LENGTH ==>
        text == flat[..ClipBuffer.BUFFER_CROP_LENGTH] + "..." + ClipBuffer.Summary(|flat|, lines)
  {
    var lineCount := Text.CountMatches(clip, sep) + 1;
    var formatted := ClipBuffer.Flatten(clip, sep);
    Text.CountMatchesIsSplitLength(clip, sep);
    if |formatted| > ClipBuffer.BUFFER_CROP_LENGTH then
      formatted[..ClipBuffer.BUFFER_CROP_LENGTH] + "..." + ClipBuffer.Summary(|formatted|, lineCount)
    else
      formatted
  }

  /** The two versions differ only on short multi-line clips, which the packaged
      version also summarises: there the older label is a proper prefix of the newer
      one. */
  lemma LabelsAgreeExceptShortMultiLine(clip: string, sep: string)
    requires |sep| > 0
    ensures var flat := ClipBuffer.Flatten(clip, sep); var lines := |Text.Split(clip, sep)|;
      if |flat| <= ClipBuffer.BUFFER_CROP_LENGTH && lines > 1 then
        |Label(clip, sep)| < |ClipBuffer.Label(clip, sep)|
        && ClipBuffer.Label(clip, sep)[..|Label(clip, sep)|] == Label(clip, sep)
      else
        Label(clip, sep) == ClipBuffer.Label(clip, sep)
  {
    var flat := ClipBuffer.Flatten(clip, sep);
    var lines := |Text.Split(clip, sep)|;
    if |flat| <= ClipBuffer.BUFFER_CROP_LENGTH && lines > 1 {
      var newer := flat + ClipBuffer.Summary(|flat|, lines);
      assert newer[..|flat|] == flat;
    }
  }
}
