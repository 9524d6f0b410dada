/**
 * imageAvailableListener (CameraFragment.kt): for each acquired image, the
 * rate gate decides; an admitted image is converted to NV21, encoded and
 * sent; the image is closed whatever happened. The JPEG encoder
 * (nv21ToJpeg) is a function parameter, the clock reading and the network's
 * success are parameters.
 */
module Pipeline {
  import opened Wrappers
  import opened Jvm
  import opened Nv21Spec
  import opened Nv21
  import opened RateGate
  import opened Framing
  import opened Streaming

  /** What happened to one image. */
  datatype FrameOutcome = NoImage | Throttled | ConversionFailed | Delivered(send: SendOutcome)

  /**
   * One listener call. `image` is what acquireLatestImage returned (null
   * when no image was ready or it threw), `now` the clock reading, `encode`
   * nv21ToJpeg and `networkUp` whether the socket writes succeed. The
   * reconnect flag stands for the connectToServer call sendFrame posts.
   */
  method OnImageAvailable(gate: FrameGate, client: StreamingClient, image: Image?, now: int,
                          encode: (seq<byte>, nat, nat) -> JavaBytes, networkUp: bool)
    returns (outcome: FrameOutcome, reconnect: bool)
    requires gate.Valid() && client.Valid()
    requires image != null ==> image.Valid()
    modifies gate, client
    modifies if image == null then {} else {image, image.y.buffer}
    ensures gate.Valid() && client.Valid()
    ensures image == null ==> outcome == NoImage && !reconnect
    ensures image == null ==> unchanged(gate, client)
    ensures image != null ==> image.closeCount == old(image.closeCount) + 1
    ensures image != null && !Admits(old(gate.lastSentTs), now) ==>
      && outcome == Throttled && !reconnect && unchanged(client)
      && gate.lastSentTs == old(gate.lastSentTs) && gate.admitted == old(gate.admitted)
    ensures image != null && !Admits(old(gate.lastSentTs), now) ==> unchanged(image.y.buffer)
    ensures image != null ==> gate.offered == old(gate.offered) + [now]
    ensures image != null && Admits(old(gate.lastSentTs), now) ==>
      gate.lastSentTs == now && gate.admitted == old(gate.admitted) + [now]
    ensures image != null && Admits(old(gate.lastSentTs), now) && !Convertible(old(image.View())) ==>
      outcome == ConversionFailed && !reconnect && unchanged(client)
    ensures image != null && Admits(old(gate.lastSentTs), now) && Convertible(old(image.View())) ==>
      var payload := encode(Nv21Layout(old(image.View())), image.width, image.height);
      && outcome.Delivered?
      && (outcome.send == Sent <==> old(client.link) == Connected && networkUp)
      && (reconnect <==> outcome.send != Sent)
      && (outcome.send == Sent ==> client.stream == old(client.stream) + Frame(payload))
      && (outcome.send != Sent ==> client.link == Disconnected && client.stream == [])
  {
    reconnect := false;
    if image == null {
      return NoImage, false;
    }
    ghost var view := image.View();
    var admitted := gate.Admit(now);
    if !admitted {
      image.Close();
      return Throttled, false;
    }
    var nv21 := Yuv420ToNv21(image);
    if nv21.None? {
      image.Close();
      return ConversionFailed, false;
    }
    var jpeg := encode(nv21.value[..], image.width, image.height);
    var sent;
    sent, reconnect := client.SendFrame(jpeg, networkUp);
    image.Close();
    return Delivered(sent), reconnect;
  }
}
