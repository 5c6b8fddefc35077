/**
  The Android activity's pending file-chooser callback: `onShowFileChooser`
  parks the web view's callback in `mUploadMessage`, `onActivityResult` hands
  it the chosen URIs (or null) exactly once and clears the slot, and
  `onRequestPermissionsResult` reloads the page only when both camera and
  microphone were granted.
*/
module FileChooser {
  import opened Foundation

  const CameraAndMicrophonePermissionCode: int := 1
  const FileChooserRequestCode: int := 2
  /** `Activity.RESULT_OK`. */
  const ResultOk: int := -1
  /** `PackageManager.PERMISSION_GRANTED`. */
  const PermissionGranted: int := 0

  /** A `Uri`; `Uri.parse` keeps the text it is given. */
  datatype Uri = Uri(text: string)

  /** One `ClipData.Item`, through `getUri()`. */
  datatype ClipItem = ClipItem(uri: Uri)

  /** The parts of the result `Intent` that are read: `getDataString()` and `getClipData()`. */
  datatype Intent = Intent(dataString: Option<string>, clipData: Option<seq<ClipItem>>)

  /** The identity of a `ValueCallback<Uri[]>` handed over by the web view. */
  datatype Callback = Callback(id: nat)

  /** One `onReceiveValue` call: which callback got which value (a null array is None). */
  datatype Delivery = Delivery(callback: Callback, value: Option<seq<Uri>>)

  /** The value `onActivityResult` delivers for a result. */
  function ChooserResults(resultCode: int, intent: Option<Intent>): Option<seq<Uri>>
  {
    if resultCode != ResultOk || intent.None? then None
    else if intent.value.dataString.Some? then Some([Uri(intent.value.dataString.value)])
    else match intent.value.clipData
      case None => None
      case Some(items) => Some(seq(|items|, i requires 0 <= i < |items| => items[i].uri))
  }

  /**
    The `results` computation of `onActivityResult`: null unless the result is
    OK and an intent came back; the clip items' URIs in index order; replaced
    by the data string, when there is one, as a one-element array.
  */
  method SelectResults(resultCode: int, intent: Option<Intent>) returns (results: Option<seq<Uri>>)
    ensures resultCode != ResultOk || intent.None? ==> results.None?
    ensures resultCode == ResultOk && intent.Some? && intent.value.dataString.Some? ==>
      results == Some([Uri(intent.value.dataString.value)])
    ensures resultCode == ResultOk && intent.Some? && intent.value.dataString.None? && intent.value.clipData.Some? ==>
      results.Some? && |results.value| == |intent.value.clipData.value| &&
      forall i :: 0 <= i < |results.value| ==> results.value[i] == intent.value.clipData.value[i].uri
    ensures resultCode == ResultOk && intent.Some? && intent.value.dataString.None? && intent.value.clipData.None? ==>
      results.None?
    ensures results == ChooserResults(resultCode, intent)
  {
    results := None;
    if resultCode == ResultOk {
      if intent.Some? {
        var dataString := intent.value.dataString;
        var clipData := intent.value.clipData;
        if clipData.Some? {
          var items := clipData.value;
          var arr := new Uri[|items|];
          for i := 0 to |items|
            invariant forall j :: 0 <= j < i ==> arr[j] == items[j].uri
          {
            arr[i] := items[i].uri;
          }
          assert arr[..] == seq(|items|, i requires 0 <= i < |items| => items[i].uri);
          results := Some(arr[..]);
        }
        if dataString.Some? {
          results := Some([Uri(dataString.value)]);
        }
      }
    }
  }

  /** The reload condition of `onRequestPermissionsResult`. */
  predicate ShouldReload(requestCode: int, grantResults: seq<int>)
  {
    requestCode == CameraAndMicrophonePermissionCode && |grantResults| > 1 &&
    grantResults[0] == PermissionGranted && grantResults[1] == PermissionGranted
  }

  class CustomWebViewActivity {
    var mUploadMessage: Option<Callback>
    /** Every `onReceiveValue` call made so far, oldest first. */
    var deliveries: seq<Delivery>
    /** How many times `webView.reload()` was called. */
    var reloads: nat
    /** How many times the "permissions are required" notice was shown. */
    var permissionNotices: nat

    constructor()
      ensures mUploadMessage == None && deliveries == [] && reloads == 0 && permissionNotices == 0
    {
      mUploadMessage := None;
      deliveries := [];
      reloads := 0;
      permissionNotices := 0;
    }

    /**
      `onShowFileChooser`: the new callback replaces any pending one, which is
      never called; the chooser activity is started and true is returned.
    */
    method OnShowFileChooser(filePathCallback: Callback) returns (handled: bool)
      modifies this
      ensures mUploadMessage == Some(filePathCallback) && handled
      ensures deliveries == old(deliveries) && reloads == old(reloads) && permissionNotices == old(permissionNotices)
    {
      mUploadMessage := Some(filePathCallback);
      handled := true;
    }

    /**
      `onActivityResult`: for the chooser's request code and a pending
      callback, deliver the selected value to it once and clear the slot;
      otherwise nothing happens.
    */
    method OnActivityResult(requestCode: int, resultCode: int, intent: Option<Intent>)
      modifies this
      ensures requestCode != FileChooserRequestCode || old(mUploadMessage).None? ==>
        mUploadMessage == old(mUploadMessage) && deliveries == old(deliveries)
      ensures requestCode == FileChooserRequestCode && old(mUploadMessage).Some? ==>
        mUploadMessage == None &&
        deliveries == old(deliveries) + [Delivery(old(mUploadMessage).value, ChooserResults(resultCode, intent))]
      ensures reloads == old(reloads) && permissionNotices == old(permissionNotices)
    {
      if requestCode == FileChooserRequestCode {
        if mUploadMessage.None? {
          return;
        }
        var results := SelectResults(resultCode, intent);
        deliveries := deliveries + [Delivery(mUploadMessage.value, results)];
        mUploadMessage := None;
      }
    }

    /**
      `onRequestPermissionsResult`: reload when both camera and microphone
      were granted; for the camera/microphone code otherwise show the notice.
    */
    method OnRequestPermissionsResult(requestCode: int, grantResults: seq<int>)
      modifies this
      ensures reloads == old(reloads) + if ShouldReload(requestCode, grantResults) then 1 else 0
      ensures permissionNotices == old(permissionNotices) +
        if requestCode == CameraAndMicrophonePermissionCode && !ShouldReload(requestCode, grantResults) then 1 else 0
      ensures mUploadMessage == old(mUploadMessage) && deliveries == old(deliveries)
    {
      if requestCode == CameraAndMicrophonePermissionCode {
        if |grantResults| > 1 && grantResults[0] == PermissionGranted && grantResults[1] == PermissionGranted {
          reloads := reloads + 1;
        } else {
          permissionNotices := permissionNotices + 1;
        }
      }
    }
  }

  /**
    A chooser opened once and answered twice: the callback is called exactly
    once, and the second result finds the slot empty.
  */
  method RepeatedResultDeliversOnce(activity: CustomWebViewActivity, cb: Callback, resultCode: int, intent: Option<Intent>)
    modifies activity
    ensures activity.deliveries == old(activity.deliveries) + [Delivery(cb, ChooserResults(resultCode, intent))]
    ensures activity.mUploadMessage == None
  {
    var handled := activity.OnShowFileChooser(cb);
    activity.OnActivityResult(FileChooserRequestCode, resultCode, intent);
    activity.OnActivityResult(FileChooserRequestCode, resultCode, intent);
  }
}
