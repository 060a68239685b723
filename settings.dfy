/** The settings dialog: a working copy of the stored settings that the
    dialog's controls change field by field, the check of an uploaded
    background file, and the validation and write-back when the user saves.
    The two local-storage keys that hold the background image (`wallpaperUrl`
    and `uploadedBackground`) are fields of the editor. */
module Settings {
  import opened Common
  import opened Text
  import opened Web
  import Storage

  /** `1.5 * 1024 * 1024`: the largest upload accepted, in bytes. */
  const MaxUploadBytes := 1572864

  /** The colour written when a colour background is saved without one. */
  const DefaultColor := "#000000"

  datatype BackgroundType = DefaultBackground | ColorBackground | ImageBackground | UploadBackground

  datatype Settings = Settings(
    theme: string,
    columns: int,
    showClock: bool,
    showSearch: bool,
    showShortcut: bool,
    showWeather: bool,
    backgroundType: BackgroundType,
    backgroundValue: string)

  /** `DEFAULT_SETTINGS`. */
  const DefaultSettings := Settings("system", 4, true, true, true, false, DefaultBackground, "")

  // ----- Upload check -----------------------------------------------------

  datatype FileCheck = FileAccepted | FileRejected(error: string)

  /** `validateUploadedFile(file)`: the MIME type must start with `image/`,
      and the size must not exceed 1.5 MiB; the type is checked first. */
  function ValidateUploadedFile(mimeType: string, size: int): (c: FileCheck)
    ensures c == FileAccepted <==> StartsWith(mimeType, "image/") && size <= MaxUploadBytes
    ensures !StartsWith(mimeType, "image/") ==> c == FileRejected("File must be an image.")
    ensures StartsWith(mimeType, "image/") && size > MaxUploadBytes ==> c == FileRejected("File size must be under 1.5MB.")
  {
    if !StartsWith(mimeType, "image/") then FileRejected("File must be an image.")
    else if size > MaxUploadBytes then FileRejected("File size must be under 1.5MB.")
    else FileAccepted
  }

  // ----- Save validation --------------------------------------------------

  datatype FieldError = ImageUrlInvalid | ImageLoadFailed | UploadMissing

  /** The checks of the save handler as written: an image background needs
      a non-blank http(s) URL (trimmed) that loads (`imageLoads` is the
      outcome of the image probe); an upload background needs a new upload
      unless the stored settings already used one. */
  function SaveErrorsAsWritten(parse: UrlParser, temp: Settings, original: Settings,
                               uploadedDataUrl: Option<string>, imageLoads: bool): (errs: set<FieldError>)
    ensures |errs| <= 1
    ensures errs == {} <==>
      && (temp.backgroundType == ImageBackground ==>
            Trim(temp.backgroundValue) != "" && IsValidUrl(parse, Trim(temp.backgroundValue)) && imageLoads)
      && (temp.backgroundType == UploadBackground ==>
            uploadedDataUrl.Some? || original.backgroundType == UploadBackground)
    ensures ImageUrlInvalid in errs <==>
      temp.backgroundType == ImageBackground
      && (Trim(temp.backgroundValue) == "" || !IsValidUrl(parse, Trim(temp.backgroundValue)))
    ensures ImageLoadFailed in errs ==> temp.backgroundType == ImageBackground && IsValidUrl(parse, Trim(temp.backgroundValue)) && !imageLoads
    ensures UploadMissing in errs ==> temp.backgroundType == UploadBackground
  {
    if temp.backgroundType == ImageBackground then
      var url := Trim(temp.backgroundValue);
      if url == "" || !IsValidUrl(parse, url) then {ImageUrlInvalid}
      else if !imageLoads then {ImageLoadFailed}
      else {}
    else if temp.backgroundType == UploadBackground && uploadedDataUrl.None? && original.backgroundType != UploadBackground then
      {UploadMissing}
    else {}
  }

  /** An image background is being saved again without a new URL: the
      stored settings already used an image, whose URL lives in local
      storage, and the URL field is blank. */
  predicate KeepsStoredImage(temp: Settings, original: Settings) {
    && temp.backgroundType == ImageBackground
    && original.backgroundType == ImageBackground
    && Trim(temp.backgroundValue) == ""
  }

  /** The save checks with the stored image kept, as the upload check keeps
      a stored upload: a blank URL field no longer blocks the save when an
      image background was already in place. */
  function SaveErrors(parse: UrlParser, temp: Settings, original: Settings,
                      uploadedDataUrl: Option<string>, imageLoads: bool): (errs: set<FieldError>)
    ensures KeepsStoredImage(temp, original) ==> errs == {}
    ensures !KeepsStoredImage(temp, original) ==> errs == SaveErrorsAsWritten(parse, temp, original, uploadedDataUrl, imageLoads)
  {
    if KeepsStoredImage(temp, original) then {} else SaveErrorsAsWritten(parse, temp, original, uploadedDataUrl, imageLoads)
  }

  /** Once an image background has been saved, its settings record holds an
      empty value; saving the dialog again unchanged is then refused as
      written, and accepted with the stored image kept. */
  lemma ResavingImageBackground(parse: UrlParser, stored: Settings, imageLoads: bool)
    requires stored.backgroundType == ImageBackground
    ensures var s := Settled(stored);
      && s.backgroundValue == ""
      && SaveErrorsAsWritten(parse, s, s, None, imageLoads) == {ImageUrlInvalid}
      && SaveErrors(parse, s, s, None, imageLoads) == {}
  {
    var s := Settled(stored);
    assert s.backgroundType == ImageBackground && s.backgroundValue == "";
    assert Trim(s.backgroundValue) == "";
  }

  /** The settings record the save handler writes: a colour background
      without a colour gets black, and image and upload backgrounds keep
      their data in local storage rather than in the record. */
  function Settled(temp: Settings): (s: Settings)
    ensures s.(backgroundValue := temp.backgroundValue) == temp
    ensures s.backgroundType == ColorBackground ==> s.backgroundValue != ""
    ensures temp.backgroundType == ColorBackground && temp.backgroundValue == "" ==> s.backgroundValue == DefaultColor
    ensures s.backgroundType == ColorBackground && temp.backgroundValue != "" ==> s == temp
    ensures s.backgroundType in {ImageBackground, UploadBackground} ==> s.backgroundValue == ""
    ensures s.backgroundType == DefaultBackground ==> s == temp
  {
    match temp.backgroundType
    case ColorBackground => if temp.backgroundValue == "" then temp.(backgroundValue := DefaultColor) else temp
    case ImageBackground => temp.(backgroundValue := "")
    case UploadBackground => temp.(backgroundValue := "")
    case DefaultBackground => temp
  }

  /** Saving twice writes the same record. */
  lemma {:induction false} SettledIdempotent(temp: Settings)
    ensures Settled(Settled(temp)) == Settled(temp)
  {
    var s := Settled(temp);
    assert s.backgroundType == temp.backgroundType by {
      assert s.(backgroundValue := temp.backgroundValue).backgroundType == temp.backgroundType;
    }
  }

  datatype SaveOutcome =
    | Rejected(errors: set<FieldError>)
    | WriteFailed(message: string)
    | Saved(settings: Settings)

  /** The opening of both quota messages. */
  const QuotaExceeded := "Storage quota exceeded."

  /** The message shown when writing the background to local storage
      fails, by kind of background and kind of error. */
  function WriteFailureMessage(upload: bool, error: string): (m: string)
    ensures StartsWith(m, QuotaExceeded) <==> Storage.IsQuotaError(error)
  {
    if Storage.IsQuotaError(error) then
      var m := QuotaExceeded + (if upload then " Please use a smaller image." else " Please try freeing up space.");
      assert m[..|QuotaExceeded|] == QuotaExceeded;
      m
    else
      var m := "Failed to save " + (if upload then "image" else "wallpaper URL") + ". Please try again.";
      assert m[0] == 'F' && QuotaExceeded[0] == 'S';
      m
  }

  /** The upload and the wallpaper URL fail with different messages, so the
      message tells which of the two writes failed. */
  lemma WriteFailureMessagesDiffer(error: string)
    ensures WriteFailureMessage(true, error) != WriteFailureMessage(false, error)
  {
    var upload, url := WriteFailureMessage(true, error), WriteFailureMessage(false, error);
    if Storage.IsQuotaError(error) {
      assert upload[31] != url[31];
    } else {
      assert upload[15] != url[15];
    }
  }

  /** The state of one open settings dialog. */
  class SettingsEditor {
    var temp: Settings
    const original: Settings
    var uploadedDataUrl: Option<string>
    var hasValidationErrors: bool
    /** Whether the error line under the image URL field shows a message. */
    var imageErrorShown: bool
    /** `chrome.storage.local` keys `wallpaperUrl` and `uploadedBackground`. */
    var wallpaperUrl: Option<string>
    var uploadedBackground: Option<string>

    /** Opening the dialog on the stored settings. */
    constructor (stored: Settings, storedWallpaperUrl: Option<string>, storedUpload: Option<string>)
      ensures temp == stored && original == stored
      ensures uploadedDataUrl == None && !hasValidationErrors && !imageErrorShown
      ensures wallpaperUrl == storedWallpaperUrl && uploadedBackground == storedUpload
    {
      temp := stored;
      original := stored;
      uploadedDataUrl := None;
      hasValidationErrors := false;
      imageErrorShown := false;
      wallpaperUrl := storedWallpaperUrl;
      uploadedBackground := storedUpload;
    }

    /** The background type select: choosing the default clears the value. */
    method SelectBackgroundType(t: BackgroundType)
      modifies this
      ensures temp == old(temp).(backgroundType := t, backgroundValue := if t == DefaultBackground then "" else old(temp).backgroundValue)
      ensures unchanged(this`uploadedDataUrl, this`hasValidationErrors, this`imageErrorShown, this`wallpaperUrl, this`uploadedBackground)
    {
      temp := temp.(backgroundType := t);
      if t == DefaultBackground {
        temp := temp.(backgroundValue := "");
      }
    }

    /** The colour picker switches to a colour background. */
    method PickColor(color: string)
      modifies this
      ensures temp == old(temp).(backgroundType := ColorBackground, backgroundValue := color)
      ensures unchanged(this`uploadedDataUrl, this`hasValidationErrors, this`imageErrorShown, this`wallpaperUrl, this`uploadedBackground)
    {
      temp := temp.(backgroundType := ColorBackground, backgroundValue := color);
    }

    /** Typing in the image URL field stores the trimmed text and, when an
        error was showing there, clears it and the error flag. */
    method EnterImageUrl(text: string)
      modifies this
      ensures temp == old(temp).(backgroundValue := Trim(text))
      ensures !imageErrorShown
      ensures hasValidationErrors == (old(hasValidationErrors) && !old(imageErrorShown))
      ensures unchanged(this`uploadedDataUrl, this`wallpaperUrl, this`uploadedBackground)
    {
      temp := temp.(backgroundValue := Trim(text));
      if imageErrorShown {
        imageErrorShown := false;
        hasValidationErrors := false;
      }
    }

    /** The file input: a file that passes the check and is read (`dataUrl`
        is the reader's result, `None` when reading fails) becomes the
        pending upload and switches to an upload background. */
    method ChooseFile(mimeType: string, size: int, dataUrl: Option<string>) returns (check: FileCheck)
      modifies this
      ensures check == ValidateUploadedFile(mimeType, size)
      ensures check == FileAccepted && dataUrl.Some? ==>
        uploadedDataUrl == dataUrl && temp == old(temp).(backgroundType := UploadBackground)
      ensures !(check == FileAccepted && dataUrl.Some?) ==>
        uploadedDataUrl == old(uploadedDataUrl) && temp == old(temp)
      ensures unchanged(this`hasValidationErrors, this`imageErrorShown, this`wallpaperUrl, this`uploadedBackground)
    {
      check := ValidateUploadedFile(mimeType, size);
      if check.FileRejected? || dataUrl.None? {
        return;
      }
      uploadedDataUrl := dataUrl;
      temp := temp.(backgroundType := UploadBackground);
    }

    /** The Save button. `imageLoads` is the image probe's outcome and
        `localError` the message of a failed local-storage write, if any.
        Rejected saves change nothing but the error state; a successful save
        records the background in local storage and yields the settings
        record to write to sync storage. The checks are the corrected
        `SaveErrors`, not `SaveErrorsAsWritten`: an image background saved
        again with a blank URL field keeps the stored image instead of being
        refused, and nothing is written to local storage for it. */
    method Save(parse: UrlParser, imageLoads: bool, localError: Option<string>) returns (outcome: SaveOutcome)
      modifies this
      ensures var errs := SaveErrors(parse, old(temp), original, old(uploadedDataUrl), imageLoads);
        && (outcome.Rejected? <==> errs != {})
        && (outcome.Rejected? ==>
              && outcome.errors == errs && hasValidationErrors
              && imageErrorShown == (old(temp).backgroundType == ImageBackground)
              && temp == old(temp)
              && wallpaperUrl == old(wallpaperUrl) && uploadedBackground == old(uploadedBackground))
      ensures outcome.WriteFailed? ==>
        && localError.Some? && hasValidationErrors
        && outcome.message == WriteFailureMessage(old(temp).backgroundType == UploadBackground, localError.value)
        && wallpaperUrl == old(wallpaperUrl) && uploadedBackground == old(uploadedBackground)
        && temp == old(temp)
        && imageErrorShown == (old(temp).backgroundType == ImageBackground)
      ensures outcome.Saved? ==>
        && outcome.settings == Settled(old(temp)) && temp == outcome.settings && !hasValidationErrors
        && (old(temp).backgroundType == ImageBackground && !KeepsStoredImage(old(temp), original) ==>
              && wallpaperUrl == Some(old(temp).backgroundValue) && uploadedBackground == None
              && IsValidUrl(parse, Trim(wallpaperUrl.value)))
        && (KeepsStoredImage(old(temp), original) ==>
              wallpaperUrl == old(wallpaperUrl) && uploadedBackground == old(uploadedBackground))
        && (old(temp).backgroundType == UploadBackground ==>
              if old(uploadedDataUrl).Some?
              then uploadedBackground == old(uploadedDataUrl) && wallpaperUrl == None
              else uploadedBackground == old(uploadedBackground) && wallpaperUrl == old(wallpaperUrl))
        && (old(temp).backgroundType in {DefaultBackground, ColorBackground} ==>
              wallpaperUrl == None && uploadedBackground == None)
      ensures uploadedDataUrl == old(uploadedDataUrl)
    {
      hasValidationErrors := false;
      imageErrorShown := false;
      var errs := SaveErrors(parse, temp, original, uploadedDataUrl, imageLoads);
      if temp.backgroundType == ColorBackground && temp.backgroundValue == "" {
        temp := temp.(backgroundValue := DefaultColor);
      }
      if errs != {} {
        hasValidationErrors := true;
        imageErrorShown := temp.backgroundType == ImageBackground;
        return Rejected(errs);
      }
      if temp.backgroundType == UploadBackground {
        if uploadedDataUrl.Some? {
          if localError.Some? {
            hasValidationErrors := true;
            return WriteFailed(WriteFailureMessage(true, localError.value));
          }
          uploadedBackground := uploadedDataUrl;
          wallpaperUrl := None;
        }
        temp := temp.(backgroundValue := "");
      } else if temp.backgroundType == ImageBackground {
        if !KeepsStoredImage(temp, original) {
          if localError.Some? {
            hasValidationErrors := true;
            imageErrorShown := true;
            return WriteFailed(WriteFailureMessage(false, localError.value));
          }
          wallpaperUrl := Some(temp.backgroundValue);
          uploadedBackground := None;
        }
        temp := temp.(backgroundValue := "");
      } else {
        uploadedBackground := None;
        wallpaperUrl := None;
      }
      outcome := Saved(temp);
    }
  }
}
