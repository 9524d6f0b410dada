/**
 * The connection bookkeeping of CameraFragment.kt: the nullable socket and
 * dataOutput fields (non-null together: Connected; null together:
 * Disconnected), connectToServer, sendFrame and the socket part of
 * closeCamera. Whether the network operation of a call succeeds is a
 * parameter; the bytes the current connection has carried are a field, so
 * the contracts state what the server receives.
 */
module Streaming {
  import opened Wrappers
  import opened Jvm
  import opened Framing

  /** Whether socket and dataOutput are set. */
  datatype Link = Disconnected | Connected

  /** What a connectToServer call did. */
  datatype ConnectOutcome = AlreadyConnected | Opened | OpenFailed

  /** What a sendFrame call did with the frame. */
  datatype SendOutcome = Sent | Dropped | WriteFailed

  class StreamingClient {
    var link: Link
    /** The bytes written to dataOutput since the current connection was opened. */
    var stream: seq<byte>
    /** The payloads sent on the current connection. */
    ghost var sent: seq<JavaBytes>

    /** A connection carries the handshake and then one frame per sent payload; no connection carries nothing. */
    ghost predicate Valid()
      reads this
    {
      && (link == Disconnected ==> stream == [] && sent == [])
      && (link == Connected ==> stream == Handshake + Frames(sent))
    }

    /** Both fields start out null. */
    constructor ()
      ensures Valid() && link == Disconnected && stream == []
    {
      link, stream, sent := Disconnected, [], [];
    }

    /**
     * connectToServer: nothing when a connection is live; otherwise opens
     * one and writes "SEND", or, when that throws, closes the socket and
     * clears both fields.
     */
    method Connect(networkUp: bool) returns (outcome: ConnectOutcome)
      requires Valid()
      modifies this
      ensures Valid()
      ensures old(link) == Connected ==> outcome == AlreadyConnected && link == Connected && stream == old(stream) && sent == old(sent)
      ensures old(link) == Disconnected && networkUp ==> outcome == Opened && link == Connected && stream == Handshake && sent == []
      ensures old(link) == Disconnected && !networkUp ==> outcome == OpenFailed && link == Disconnected && stream == []
    {
      if link == Connected {
        return AlreadyConnected;
      }
      if !networkUp {
        link, stream, sent := Disconnected, [], [];
        return OpenFailed;
      }
      link, stream, sent := Connected, [], [];
      stream := stream + Handshake;
      assert Frames(sent) == [];
      return Opened;
    }

    /**
     * sendFrame: without a stream the frame is dropped and a reconnect
     * requested; otherwise writeInt(size) and the payload are written, and
     * when that throws both fields are cleared and a reconnect requested.
     * A failed frame is not kept for a later attempt.
     */
    method SendFrame(payload: JavaBytes, networkUp: bool) returns (outcome: SendOutcome, reconnect: bool)
      requires Valid()
      modifies this
      ensures Valid()
      ensures reconnect <==> outcome != Sent
      ensures old(link) == Disconnected ==> outcome == Dropped && link == Disconnected && stream == []
      ensures old(link) == Connected && networkUp ==>
        outcome == Sent && link == Connected && stream == old(stream) + WriteInt(|payload|) + payload && sent == old(sent) + [payload]
      ensures old(link) == Connected && !networkUp ==> outcome == WriteFailed && link == Disconnected && stream == []
    {
      if link == Disconnected {
        return Dropped, true;
      }
      if !networkUp {
        link, stream, sent := Disconnected, [], [];
        return WriteFailed, true;
      }
      FramesAppend(sent, payload);
      stream := stream + WriteInt(|payload|);
      stream := stream + payload;
      sent := sent + [payload];
      return Sent, false;
    }

    /** closeCamera: closes the stream and the socket and clears both fields. */
    method Close()
      modifies this
      ensures Valid() && link == Disconnected && stream == []
    {
      link, stream, sent := Disconnected, [], [];
    }
  }

  /** While connected, the server reads the client's stream back as exactly the payloads sent on it, in order. */
  lemma ServerReadsSent(client: StreamingClient)
    requires client.Valid() && client.link == Connected
    ensures DecodeStream(client.stream) == Some(client.sent)
  {
    StreamRoundTrip(client.stream, client.sent);
  }
}
