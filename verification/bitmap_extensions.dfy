/** BitmapExtensions (BitmapExtensions.cs): picking an image encoder from the
    name the user typed in the save dialog. The dialog, the encoders and the
    file they write are outside the model: the dialog's answer is a parameter
    and the outcome says which encoder would write to which path. */
module BitmapExtensions {
  import opened Common

  /** A string without '.'. */
  predicate DotFree(s: string)
  {
    forall i :: 0 <= i < |s| ==> s[i] != '.'
  }

  /** A string of dots only (the empty one included). */
  predicate AllDots(s: string)
  {
    forall i :: 0 <= i < |s| ==> s[i] == '.'
  }

  /** The characters other than '.' right before position n: the piece of
      `Split('.')` that is still open at n. */
  function RunAt(s: string, n: nat): (r: string)
    requires n <= |s|
    ensures DotFree(r) && |r| <= n
    decreases n
  {
    if n == 0 || s[n - 1] == '.' then "" else RunAt(s, n - 1) + [s[n - 1]]
  }

  /** The pieces of `Split('.')` that the dots among the first n characters
      have closed, one per dot. */
  function SplitDone(s: string, n: nat): (done: seq<string>)
    requires n <= |s|
    decreases n
  {
    if n == 0 then []
    else if s[n - 1] == '.' then SplitDone(s, n - 1) + [RunAt(s, n - 1)]
    else SplitDone(s, n - 1)
  }

  /** `Split('.')` on the first n characters: the closed pieces and the open
      one, empty ones included. */
  function SplitPrefix(s: string, n: nat): (parts: seq<string>)
    requires n <= |s|
    ensures |parts| >= 1
  {
    SplitDone(s, n) + [RunAt(s, n)]
  }

  /** `s.Split('.')`. */
  function SplitOnDots(s: string): (parts: seq<string>)
    ensures |parts| >= 1
  {
    SplitPrefix(s, |s|)
  }

  /** A dot closes the open piece and opens an empty one. */
  lemma SplitPrefixDot(s: string, n: nat)
    requires 0 < n <= |s| && s[n - 1] == '.'
    ensures SplitPrefix(s, n) == SplitPrefix(s, n - 1) + [""]
  {
  }

  /** Any other character extends the open piece. */
  lemma SplitPrefixChar(s: string, n: nat)
    requires 0 < n <= |s| && s[n - 1] != '.'
    ensures var init := SplitPrefix(s, n - 1);
      SplitPrefix(s, n) == init[..|init| - 1] + [init[|init| - 1] + [s[n - 1]]]
  {
    var init := SplitPrefix(s, n - 1);
    assert init[..|init| - 1] == SplitDone(s, n - 1);
  }

  /** The pieces joined back with '.' between them. */
  function JoinWithDots(parts: seq<string>): string
    requires |parts| >= 1
  {
    if |parts| == 1 then parts[0] else JoinWithDots(parts[..|parts| - 1]) + "." + parts[|parts| - 1]
  }

  lemma JoinSnocChar(parts: seq<string>, c: char)
    requires |parts| >= 1
    ensures JoinWithDots(parts[..|parts| - 1] + [parts[|parts| - 1] + [c]]) == JoinWithDots(parts) + [c]
  {
    var k := |parts| - 1;
    var q := parts[..k] + [parts[k] + [c]];
    if k > 0 {
      assert q[..k] == parts[..k];
    }
  }

  lemma JoinSnocEmpty(parts: seq<string>)
    requires |parts| >= 1
    ensures JoinWithDots(parts + [""]) == JoinWithDots(parts) + "."
  {
    assert (parts + [""])[..|parts|] == parts;
  }

  /** Splitting loses nothing: joining the pieces of the first n characters
      gives them back. */
  lemma {:induction false} SplitJoinPrefix(s: string, n: nat)
    requires n <= |s|
    ensures JoinWithDots(SplitPrefix(s, n)) == s[..n]
    decreases n
  {
    if n > 0 {
      SplitJoinPrefix(s, n - 1);
      assert s[..n] == s[..n - 1] + [s[n - 1]];
      if s[n - 1] == '.' {
        SplitPrefixDot(s, n);
        JoinSnocEmpty(SplitPrefix(s, n - 1));
      } else {
        SplitPrefixChar(s, n);
        JoinSnocChar(SplitPrefix(s, n - 1), s[n - 1]);
      }
    }
  }

  lemma SplitJoin(s: string)
    ensures JoinWithDots(SplitOnDots(s)) == s
  {
    SplitJoinPrefix(s, |s|);
    assert s[..|s|] == s;
  }

  /** No closed piece holds a dot. */
  lemma {:induction false} SplitDoneDotFree(s: string, n: nat)
    requires n <= |s|
    ensures forall j :: 0 <= j < |SplitDone(s, n)| ==> DotFree(SplitDone(s, n)[j])
    decreases n
  {
    if n > 0 {
      SplitDoneDotFree(s, n - 1);
    }
  }

  /** No piece holds a dot. */
  lemma SplitPiecesDotFree(s: string, n: nat)
    requires n <= |s|
    ensures forall j :: 0 <= j < |SplitPrefix(s, n)| ==> DotFree(SplitPrefix(s, n)[j])
  {
    SplitDoneDotFree(s, n);
    var done := SplitDone(s, n);
    forall j | 0 <= j < |SplitPrefix(s, n)|
      ensures DotFree(SplitPrefix(s, n)[j])
    {
      if j < |done| {
        assert SplitPrefix(s, n)[j] == done[j];
      }
    }
  }

  /** The non-empty pieces among the first k, in order. */
  function NonEmptyUpTo(parts: seq<string>, k: nat): (r: seq<string>)
    requires k <= |parts|
    ensures |r| <= k
    decreases k
  {
    if k == 0 then []
    else if |parts[k - 1]| == 0 then NonEmptyUpTo(parts, k - 1)
    else NonEmptyUpTo(parts, k - 1) + [parts[k - 1]]
  }

  /** `StringSplitOptions.RemoveEmptyEntries`: the non-empty pieces, in order. */
  function NonEmpty(parts: seq<string>): (r: seq<string>)
    ensures |r| <= |parts|
  {
    NonEmptyUpTo(parts, |parts|)
  }

  /** Removing empty pieces leaves no empty piece and keeps every other one. */
  lemma {:induction false} NonEmptyUpToPieces(parts: seq<string>, k: nat)
    requires k <= |parts|
    ensures forall j :: 0 <= j < |NonEmptyUpTo(parts, k)| ==> |NonEmptyUpTo(parts, k)[j]| > 0
    ensures forall i :: 0 <= i < k && |parts[i]| > 0 ==> parts[i] in NonEmptyUpTo(parts, k)
    decreases k
  {
    if k > 0 {
      NonEmptyUpToPieces(parts, k - 1);
      var before := NonEmptyUpTo(parts, k - 1);
      forall i | 0 <= i < k && |parts[i]| > 0
        ensures parts[i] in NonEmptyUpTo(parts, k)
      {
        if i < k - 1 {
          assert parts[i] in before;
        } else {
          assert NonEmptyUpTo(parts, k) == before + [parts[i]];
        }
      }
    }
  }

  lemma NonEmptyPieces(parts: seq<string>)
    ensures forall j :: 0 <= j < |NonEmpty(parts)| ==> |NonEmpty(parts)[j]| > 0
    ensures forall p :: p in parts && |p| > 0 ==> p in NonEmpty(parts)
  {
    NonEmptyUpToPieces(parts, |parts|);
  }

  /** A piece added at the end does not change what came before it. */
  lemma {:induction false} NonEmptyUpToSnoc(parts: seq<string>, p: string, k: nat)
    requires k <= |parts|
    ensures NonEmptyUpTo(parts + [p], k) == NonEmptyUpTo(parts, k)
    decreases k
  {
    if k > 0 {
      NonEmptyUpToSnoc(parts, p, k - 1);
      assert (parts + [p])[k - 1] == parts[k - 1];
    }
  }

  /** Removing empty pieces from `parts + [p]`. */
  lemma NonEmptySnoc(parts: seq<string>, p: string)
    ensures NonEmpty(parts + [p]) == NonEmpty(parts) + (if |p| == 0 then [] else [p])
  {
    NonEmptyUpToSnoc(parts, p, |parts|);
    assert (parts + [p])[|parts|] == p;
  }

  /** `GetExtension(fileName)`: the last non-empty piece after splitting on
      '.'; `Last()` on no pieces throws InvalidOperation. */
  function GetExtension(fileName: string): (r: Result<string>)
    ensures r.Err? ==> r.error == InvalidOperation
  {
    var parts := NonEmpty(SplitOnDots(fileName));
    if |parts| == 0 then Err(InvalidOperation) else Ok(parts[|parts| - 1])
  }

  // A reference description of the same thing, without splitting.

  /** The number of dots right before position n. */
  function DotsBefore(s: string, n: nat): (t: nat)
    requires n <= |s|
    ensures t <= n
    ensures forall i :: n - t <= i < n ==> s[i] == '.'
    ensures t < n ==> s[n - t - 1] != '.'
    decreases n
  {
    if n == 0 || s[n - 1] != '.' then 0 else DotsBefore(s, n - 1) + 1
  }

  /** The run before position n is the slice that ends there, preceded by a
      dot or by the start of the name. */
  lemma {:induction false} RunAtSlice(s: string, n: nat)
    requires n <= |s|
    ensures RunAt(s, n) == s[n - |RunAt(s, n)|..n]
    ensures |RunAt(s, n)| < n ==> s[n - |RunAt(s, n)| - 1] == '.'
    decreases n
  {
    if n > 0 && s[n - 1] != '.' {
      RunAtSlice(s, n - 1);
      var k := |RunAt(s, n - 1)|;
      assert s[n - 1 - k..n] == s[n - 1 - k..n - 1] + [s[n - 1]];
    }
  }

  /** The number of dots the name ends with. */
  function TrailingDots(s: string): (t: nat)
    ensures t <= |s|
  {
    DotsBefore(s, |s|)
  }

  /** The last run of characters other than '.', ignoring trailing dots. */
  function LastRun(s: string): (e: string)
    ensures DotFree(e)
  {
    RunAt(s, |s| - TrailingDots(s))
  }

  /** A trailing '.' adds an empty piece, which removing empty pieces drops,
      and one more trailing dot: the run before the dots stays. */
  lemma NonEmptySplitDot(s: string, n: nat)
    requires 0 < n <= |s| && s[n - 1] == '.'
    ensures NonEmpty(SplitPrefix(s, n)) == NonEmpty(SplitPrefix(s, n - 1))
    ensures n - DotsBefore(s, n) == n - 1 - DotsBefore(s, n - 1)
  {
    SplitPrefixDot(s, n);
    NonEmptySnoc(SplitPrefix(s, n - 1), "");
  }

  /** After a character other than '.', the open piece is the last
      non-empty one. */
  lemma NonEmptySplitChar(s: string, n: nat)
    requires 0 < n <= |s| && s[n - 1] != '.'
    ensures DotsBefore(s, n) == 0 && |RunAt(s, n)| > 0
    ensures var ne := NonEmpty(SplitPrefix(s, n)); |ne| > 0 && ne[|ne| - 1] == RunAt(s, n)
  {
    NonEmptySnoc(SplitDone(s, n), RunAt(s, n));
  }

  /** Removing empty pieces of the first n characters and taking the last
      one finds exactly the last run before the trailing dots: none when
      those characters are only dots. */
  lemma {:induction false} NonEmptyLastIsRun(s: string, n: nat)
    requires n <= |s|
    ensures var ne, run := NonEmpty(SplitPrefix(s, n)), RunAt(s, n - DotsBefore(s, n));
      (|ne| == 0 <==> run == "") && (|ne| > 0 ==> ne[|ne| - 1] == run)
    decreases n
  {
    if n == 0 {
      NonEmptySnoc([], "");
    } else if s[n - 1] == '.' {
      NonEmptyLastIsRun(s, n - 1);
      NonEmptySplitDot(s, n);
    } else {
      NonEmptySplitChar(s, n);
    }
  }

  /** GetExtension is the last run of non-dot characters before any
      trailing dots; it fails exactly when the name is empty or only dots. */
  lemma GetExtensionIsLastRun(fileName: string)
    ensures GetExtension(fileName).Err? <==> AllDots(fileName)
    ensures GetExtension(fileName).Ok? ==> GetExtension(fileName).value == LastRun(fileName)
    ensures GetExtension(fileName).Ok? ==>
      var e, t := GetExtension(fileName).value, TrailingDots(fileName);
      |e| > 0 && DotFree(e) && |e| + t <= |fileName| &&
      fileName[|fileName| - t - |e| .. |fileName| - t] == e &&
      (|e| + t == |fileName| || fileName[|fileName| - t - |e| - 1] == '.')
  {
    var n := |fileName|;
    NonEmptyLastIsRun(fileName, n);
    var t := DotsBefore(fileName, n);
    var run := RunAt(fileName, n - t);
    RunAtSlice(fileName, n - t);
    if t < n {
      assert fileName[n - t - 1] != '.';
      assert run != "";
    }
  }

  /** GetExtension in terms of the last run alone. */
  lemma GetExtensionViaLastRun(s: string)
    ensures GetExtension(s) == if LastRun(s) == "" then Err(InvalidOperation) else Ok(LastRun(s))
  {
    NonEmptyLastIsRun(s, |s|);
  }

  /** Dots from a up to b, after a character other than '.', are the
      trailing dots at b. */
  lemma {:induction false} DotsBeforeIs(s: string, a: nat, b: nat)
    requires a <= b <= |s|
    requires a == 0 || s[a - 1] != '.'
    requires forall i :: a <= i < b ==> s[i] == '.'
    ensures DotsBefore(s, b) == b - a
    decreases b
  {
    if b > a {
      DotsBeforeIs(s, a, b - 1);
    }
  }

  /** Characters other than '.' from a up to b, after a dot, are the run
      at b. */
  lemma {:induction false} RunAtIs(s: string, a: nat, b: nat)
    requires a <= b <= |s|
    requires a == 0 || s[a - 1] == '.'
    requires forall i :: a <= i < b ==> s[i] != '.'
    ensures RunAt(s, b) == s[a..b]
    decreases b
  {
    if b > a {
      RunAtIs(s, a, b - 1);
      assert s[a..b] == s[a..b - 1] + [s[b - 1]];
    }
  }

  /** A name without dots is its own extension. */
  lemma DotFreeIsOwnExtension(s: string)
    requires |s| > 0 && DotFree(s)
    ensures GetExtension(s) == Ok(s)
  {
    GetExtensionViaLastRun(s);
    DotsBeforeIs(s, |s|, |s|);
    RunAtIs(s, 0, |s|);
    assert s[0..|s|] == s;
  }

  /** The extension of `p.e` followed by any number of dots is e. */
  lemma ExtensionAfterLastDot(p: string, e: string, dots: string)
    requires |e| > 0 && DotFree(e)
    requires AllDots(dots)
    ensures GetExtension(p + "." + e + dots) == Ok(e)
  {
    var s := p + "." + e + dots;
    var a, b := |p| + 1, |p| + 1 + |e|;
    assert s[a..b] == e;
    assert forall i :: b <= i < |s| ==> s[i] == dots[i - b];
    assert forall i :: a <= i < b ==> s[i] == e[i - a];
    DotsBeforeIs(s, b, |s|);
    RunAtIs(s, a, b);
    GetExtensionViaLastRun(s);
  }

  /** A plain name is its own extension. */
  lemma GetExtensionOfPlainName()
    ensures GetExtension("photo") == Ok("photo")
  {
    DotFreeIsOwnExtension("photo");
  }

  /** A trailing dot is skipped. */
  lemma GetExtensionSkipsTrailingDot()
    ensures GetExtension("a.png.") == Ok("png")
  {
    ExtensionAfterLastDot("a", "png", ".");
    assert "a" + "." + "png" + "." == "a.png.";
  }

  /** A name made only of dots, or an empty one, has no extension. */
  lemma GetExtensionOfDots(s: string)
    requires AllDots(s)
    ensures GetExtension(s) == Err(InvalidOperation)
  {
    GetExtensionIsLastRun(s);
  }

  /** `ToLowerInvariant` on ASCII letters: 'A'..'Z' become 'a'..'z'. */
  function ToLowerChar(c: char): (r: char)
    ensures ('A' <= c <= 'Z') ==> 'a' <= r <= 'z' && r as int - c as int == 32
    ensures !('A' <= c <= 'Z') ==> r == c
  {
    if 'A' <= c <= 'Z' then (c as int + 32) as char else c
  }

  function ToLower(s: string): (r: string)
    ensures |r| == |s| && forall i :: 0 <= i < |s| ==> r[i] == ToLowerChar(s[i])
  {
    seq(|s|, i requires 0 <= i < |s| => ToLowerChar(s[i]))
  }

  /** Lowering twice is lowering once. */
  lemma ToLowerIdempotent(s: string)
    ensures ToLower(ToLower(s)) == ToLower(s)
  {
  }

  /** The encoder `Save` hands the image to. */
  datatype Encoder = Png | Jpeg

  /** The message of the ExtensionNotSupportedException `Save` throws. */
  function NotSupportedMessage(extension: string): string
  {
    "Extension '" + extension + "' is not supported"
  }

  /** The if/else chain of `Save` on the lowered extension. */
  function EncoderFor(extension: string): (r: Result<Encoder>)
    ensures r == Ok(Png) <==> extension == "png" || extension == "bmp"
    ensures r == Ok(Jpeg) <==> extension == "jpg" || extension == "jpeg"
    ensures r.Err? ==> r.error == ExtensionNotSupported(NotSupportedMessage(extension))
  {
    if extension == "png" || extension == "bmp" then Ok(Png)
    else if extension == "jpg" || extension == "jpeg" then Ok(Jpeg)
    else Err(ExtensionNotSupported(NotSupportedMessage(extension)))
  }

  /** What `Save` does. */
  datatype SaveOutcome =
    | NoPicture                               // no image: the "No picture to save" message
    | Cancelled                               // the dialog was closed without a name
    | Saved(encoder: Encoder, path: string)   // the encoder writes the image to path
    | Reported(message: string)               // the caught exception's message is shown

  /** `image.Save()`: `hasImage` is false for a null image; `dialog` is the
      save dialog's answer, None when it was cancelled, otherwise the safe
      file name and the full path. Only ExtensionNotSupportedException is
      caught; the InvalidOperation of a name made of dots escapes. */
  function Save(hasImage: bool, dialog: Option<(string, string)>): (r: Result<SaveOutcome>)
    ensures !hasImage ==> r == Ok(NoPicture)
    ensures hasImage && dialog.None? ==> r == Ok(Cancelled)
  {
    if !hasImage then Ok(NoPicture)
    else if dialog.None? then Ok(Cancelled)
    else
      var extension :- GetExtension(dialog.value.0);
      var lowered := ToLower(extension);
      match EncoderFor(lowered)
      case Ok(encoder) => Ok(Saved(encoder, dialog.value.1))
      case Err(e) => Ok(Reported(NotSupportedMessage(lowered)))
  }

  /** Which encoder a chosen name leads to, in terms of its last run of
      non-dot characters: PNG for png/bmp, JPEG for jpg/jpeg in any ASCII
      case, a reported message for anything else, and an escaping
      InvalidOperation for a name with no such run. */
  lemma SaveDispatch(safeName: string, path: string)
    ensures var r := Save(true, Some((safeName, path)));
      var ext := ToLower(LastRun(safeName));
      (r.Err? <==> AllDots(safeName)) &&
      (r.Err? ==> r.error == InvalidOperation) &&
      (r.Ok? && (ext == "png" || ext == "bmp") ==> r.value == Saved(Png, path)) &&
      (r.Ok? && (ext == "jpg" || ext == "jpeg") ==> r.value == Saved(Jpeg, path)) &&
      (r.Ok? && ext != "png" && ext != "bmp" && ext != "jpg" && ext != "jpeg" ==>
        r.value == Reported(NotSupportedMessage(ext)))
  {
    GetExtensionIsLastRun(safeName);
  }
}
