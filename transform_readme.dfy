/**
 * The readme transformer as a whole (tools/transform-readme.php): the
 * README.md text passes through the five rewrites in order, the screenshot
 * listing is checked between the last two, and the first error() ends the
 * run. Reading README.md, globbing the screenshot files and writing
 * readme.txt are left to the caller: the text and the listing are inputs,
 * the readme.txt text is the result.
 */
module TransformReadme {
  import opened Wrappers
  import opened Diagnostics
  import opened CodeBlocks
  import opened Header
  import opened YouTube
  import opened Screenshots
  import opened Headings

  /** The readme.txt text for `readme`, or the first error on the way. */
  function Transform(readme: string, screenshotFiles: seq<string>): (r: Result<string, Diagnostic>)
    ensures r.Success? ==> RewriteHeader(RewriteCodeBlocks(readme)).Success?
    ensures r.Success? ==>
      var captioned := ScreenshotsFixed(UnwrapVideos(RewriteHeader(RewriteCodeBlocks(readme)).value));
      && captioned.Success?
      && |screenshotFiles| == captioned.value.count
      && (forall i :: 0 <= i < |screenshotFiles| ==> Sequential(screenshotFiles[i], i))
      && r == ConvertHeadings(captioned.value.text)
    ensures var header := RewriteHeader(RewriteCodeBlocks(readme));
      header.Failure? ==> r == Failure(header.error)
    ensures var header := RewriteHeader(RewriteCodeBlocks(readme));
      header.Success? ==>
        var captioned := ScreenshotsFixed(UnwrapVideos(header.value));
        && (captioned.Failure? ==> r == Failure(captioned.error))
        && (captioned.Success? ==>
              var checked := FilesChecked(screenshotFiles, captioned.value.count);
              && (checked.Fail? ==> r == Failure(checked.error))
              && (checked.Pass? ==> r == ConvertHeadings(captioned.value.text)))
  {
    var withCode := RewriteCodeBlocks(readme);
    var withHeader :- RewriteHeader(withCode);
    var withVideos := UnwrapVideos(withHeader);
    var captioned :- ScreenshotsFixed(withVideos);
    var checked := FilesChecked(screenshotFiles, captioned.count);
    if checked.Fail? then Failure(checked.error)
    else ConvertHeadings(captioned.text)
  }

  /** The script's sequence of statements, reassigning one buffer pass by pass. */
  method TransformReadme(readme: string, screenshotFiles: seq<string>) returns (r: Result<string, Diagnostic>)
    ensures r == Transform(readme, screenshotFiles)
  {
    var readmeTxt := readme;
    readmeTxt := RewriteCodeBlocks(readmeTxt);
    var header := ReplaceHeader(readmeTxt);
    if header.Failure? {
      return Failure(header.error);
    }
    readmeTxt := header.value;
    readmeTxt := UnwrapVideos(readmeTxt);
    var captioned := FixScreenshots(readmeTxt);
    if captioned.Failure? {
      return Failure(captioned.error);
    }
    readmeTxt := captioned.value.text;
    var checked := CheckScreenshotFiles(screenshotFiles, captioned.value.count);
    if checked.Fail? {
      return Failure(checked.error);
    }
    r := ConvertHeadings(readmeTxt);
  }
}
