/** The objects behind the zero-copy protocol: the compositor's key set, the broker's markers and bookkeeping, and the
    renderer whose methods edit all three. Every method is shown to leave behind, write by write, exactly the states
    that its list of writes goes through. */
module ZeroCopyRenderer {
  import opened Wrappers
  import opened ZeroCopyProtocol

  class Compositor {
    var zeroCopySurfaceKeys: set<Key>
    var shmCommitSerial: nat
    ghost var lost: set<Key>

    constructor ()
      ensures zeroCopySurfaceKeys == {} && lost == {} && shmCommitSerial == 0
    {
      zeroCopySurfaceKeys, lost, shmCommitSerial := {}, {}, 0;
    }

    method SetSurfaceZeroCopy(surfaceKey: Key, enabled: bool)
      modifies this
      ensures shmCommitSerial == old(shmCommitSerial)
      ensures zeroCopySurfaceKeys == if surfaceKey == 0 then old(zeroCopySurfaceKeys)
                                     else if enabled then old(zeroCopySurfaceKeys) + {surfaceKey}
                                     else old(zeroCopySurfaceKeys) - {surfaceKey}
      ensures lost == if surfaceKey == 0 then old(lost) else old(lost) - {surfaceKey}
    {
      if surfaceKey == 0 {
        return;
      }
      if enabled {
        zeroCopySurfaceKeys := zeroCopySurfaceKeys + {surfaceKey};
      } else {
        zeroCopySurfaceKeys := zeroCopySurfaceKeys - {surfaceKey};
      }
      lost := lost - {surfaceKey};
    }

    /** The part of a surface's destruction that concerns its key. */
    method RemoveZeroCopyKey(surfaceKey: Key)
      modifies this
      ensures shmCommitSerial == old(shmCommitSerial)
      ensures zeroCopySurfaceKeys == old(zeroCopySurfaceKeys) - {surfaceKey}
      ensures lost == old(lost) + (old(zeroCopySurfaceKeys) * {surfaceKey})
    {
      lost := lost + (zeroCopySurfaceKeys * {surfaceKey});
      zeroCopySurfaceKeys := zeroCopySurfaceKeys - {surfaceKey};
    }
  }

  class Broker {
    var zeroCopyAttachedSurfaces: set<Key>
    var readyMarkers: set<Key>
    ghost var missing: set<Key>

    constructor ()
      ensures zeroCopyAttachedSurfaces == {} && readyMarkers == {} && missing == {}
    {
      zeroCopyAttachedSurfaces, readyMarkers, missing := {}, {}, {};
    }

    /** `sent` is the answer of the IPC call to the child. */
    method AttachZeroCopyTarget(surfaceKey: Key, sent: bool) returns (ok: bool)
      modifies this`zeroCopyAttachedSurfaces
      ensures ok <==> surfaceKey != 0 && (surfaceKey in old(zeroCopyAttachedSurfaces) || sent)
      ensures zeroCopyAttachedSurfaces == if ok then old(zeroCopyAttachedSurfaces) + {surfaceKey}
                                          else old(zeroCopyAttachedSurfaces)
    {
      if surfaceKey == 0 {
        return false;
      }
      if surfaceKey in zeroCopyAttachedSurfaces {
        return true;
      }
      if !sent {
        return false;
      }
      zeroCopyAttachedSurfaces := zeroCopyAttachedSurfaces + {surfaceKey};
      return true;
    }

    method DetachZeroCopyTarget(surfaceKey: Key)
      modifies this`zeroCopyAttachedSurfaces, this`readyMarkers
      ensures surfaceKey != 0 && surfaceKey in old(zeroCopyAttachedSurfaces) ==>
                zeroCopyAttachedSurfaces == old(zeroCopyAttachedSurfaces) - {surfaceKey} &&
                readyMarkers == old(readyMarkers) - {surfaceKey}
      ensures !(surfaceKey != 0 && surfaceKey in old(zeroCopyAttachedSurfaces)) ==>
                zeroCopyAttachedSurfaces == old(zeroCopyAttachedSurfaces) && readyMarkers == old(readyMarkers)
    {
      if surfaceKey == 0 || surfaceKey !in zeroCopyAttachedSurfaces {
        return;
      }
      zeroCopyAttachedSurfaces := zeroCopyAttachedSurfaces - {surfaceKey};
      readyMarkers := readyMarkers - {surfaceKey};
    }

    /** `created` is the answer of the `open` call that creates the marker file. */
    method SetZeroCopySurfaceReady(surfaceKey: Key, ready: bool, created: bool)
      modifies this`readyMarkers, this`missing
      ensures readyMarkers == if surfaceKey == 0 then old(readyMarkers)
                              else if !ready then old(readyMarkers) - {surfaceKey}
                              else if created then old(readyMarkers) + {surfaceKey}
                              else old(readyMarkers)
      ensures missing == if surfaceKey == 0 then old(missing)
                         else if ready && !created then old(missing) + ({surfaceKey} - old(readyMarkers))
                         else old(missing) - {surfaceKey}
    {
      if surfaceKey == 0 {
        return;
      }
      if !ready {
        readyMarkers, missing := readyMarkers - {surfaceKey}, missing - {surfaceKey};
      } else if created {
        readyMarkers, missing := readyMarkers + {surfaceKey}, missing - {surfaceKey};
      } else {
        missing := missing + ({surfaceKey} - readyMarkers);
      }
    }

    /** Also what a reset of the renderer inside the process does. */
    method ShutdownVirglIpc()
      modifies this
      ensures readyMarkers == old(readyMarkers) - old(zeroCopyAttachedSurfaces)
      ensures missing == old(missing) + old(readyMarkers) * old(zeroCopyAttachedSurfaces)
      ensures zeroCopyAttachedSurfaces == {}
    {
      missing := missing + readyMarkers * zeroCopyAttachedSurfaces;
      var left := zeroCopyAttachedSurfaces;
      while left != {}
        invariant left <= zeroCopyAttachedSurfaces == old(zeroCopyAttachedSurfaces)
        invariant readyMarkers == old(readyMarkers) - (zeroCopyAttachedSurfaces - left)
        invariant missing == old(missing) + old(readyMarkers) * old(zeroCopyAttachedSurfaces)
        decreases left
      {
        var surfaceKey :| surfaceKey in left;
        readyMarkers := readyMarkers - {surfaceKey};
        left := left - {surfaceKey};
      }
      zeroCopyAttachedSurfaces := {};
    }

    /** Removes whatever marker files the directory lists. */
    method RemoveStaleZeroCopyMarkers()
      modifies this`readyMarkers, this`missing
      ensures readyMarkers == {} && missing == old(missing) + old(readyMarkers)
    {
      missing := missing + readyMarkers;
      var left := readyMarkers;
      while left != {}
        invariant left == readyMarkers && missing == old(missing) + old(readyMarkers)
        decreases left
      {
        var surfaceKey :| surfaceKey in left;
        readyMarkers := readyMarkers - {surfaceKey};
        left := left - {surfaceKey};
      }
    }
  }

  class EglRenderer {
    const compositor: Compositor
    const broker: Broker
    var registered: bool
    var readyPublished: bool
    var hasFrame: bool
    var fallbackPending: bool
    var image: bool
    var surfaceKey: Key
    var consecutiveFailures: nat
    var fallbackShmSerial: nat
    ghost var trace: seq<State>

    constructor (c: Compositor, b: Broker)
      requires c.zeroCopySurfaceKeys == {} && c.lost == {} && c.shmCommitSerial == 0
      requires b.zeroCopyAttachedSurfaces == {} && b.readyMarkers == {} && b.missing == {}
      ensures compositor == c && broker == b && Seen() == Performance(INIT, [])
    {
      compositor, broker := c, b;
      registered, readyPublished, hasFrame, fallbackPending, image := false, false, false, false, false;
      surfaceKey, consecutiveFailures, fallbackShmSerial, trace := 0, 0, 0, [];
    }

    /** The protocol state the three objects hold together. */
    ghost function Abs(): State
      reads this, compositor, broker
    {
      State(registered, readyPublished, hasFrame, fallbackPending, image, surfaceKey, consecutiveFailures,
            fallbackShmSerial, compositor.zeroCopySurfaceKeys, broker.readyMarkers, broker.zeroCopyAttachedSurfaces,
            compositor.shmCommitSerial, compositor.lost, broker.missing)
    }

    /** That state, and the states that the renderer's writes have left behind one after the other. */
    ghost function Seen(): Performance
      reads this, compositor, broker
    {
      Performance(Abs(), trace)
    }

    /** Puts the state on record after the next of the writes still to do; nothing else may have changed since `p`. */
    ghost method Observe(p: Performance, todo: Todo) returns (rest: Todo)
      requires todo.Do? && Abs() == Exec(p.s, todo.first) && trace == p.trace
      modifies this`trace
      ensures rest == todo.rest && trace == p.trace + [Abs()]
      ensures Perform(Seen(), rest) == Perform(p, todo)
    {
      rest := todo.rest;
      trace := trace + [Abs()];
    }

    method PublishZeroCopyActive(created: bool)
      modifies this`readyPublished, this`trace, compositor, broker`readyMarkers, broker`missing
      ensures Seen() == Perform(old(Seen()), PublishActive(old(Abs()), created, Done))
    {
      if readyPublished {
        return;
      }
      ghost var p, todo := Seen(), PublishActive(Abs(), created, Done);
      compositor.SetSurfaceZeroCopy(surfaceKey, true);
      todo := Observe(p, todo);
      AnnounceReady(created);
    }

    /** The marker for the guest, and the flag that remembers it. */
    method AnnounceReady(created: bool)
      modifies this`readyPublished, this`trace, broker`readyMarkers, broker`missing
      ensures Seen() == Perform(old(Seen()), Do(CreateMarker(created), Do(SetReady(true), Done)))
    {
      ghost var p := Seen();
      broker.SetZeroCopySurfaceReady(surfaceKey, true, created);
      ghost var todo := Observe(p, Do(CreateMarker(created), Do(SetReady(true), Done)));
      p := Seen();
      readyPublished := true;
      todo := Observe(p, todo);
    }

    /** `next` is what the caller goes on to write. */
    method UnpublishZeroCopyReady(ghost next: Todo)
      modifies this`readyPublished, this`trace, broker`readyMarkers, broker`missing
      ensures Perform(Seen(), next) == Perform(old(Seen()), UnpublishReady(old(Abs()), next))
      ensures !readyPublished
    {
      if !readyPublished {
        return;
      }
      ghost var p, todo := Seen(), UnpublishReady(Abs(), next);
      broker.SetZeroCopySurfaceReady(surfaceKey, false, true);
      todo := Observe(p, todo);
      p := Seen();
      readyPublished := false;
      todo := Observe(p, todo);
    }

    method ClearZeroCopyCompositorKey(ghost next: Todo)
      modifies this`trace, compositor
      ensures Perform(Seen(), next) == Perform(old(Seen()), Do(EraseKey, next))
    {
      ghost var p := Seen();
      compositor.SetSurfaceZeroCopy(surfaceKey, false);
      ghost var todo := Observe(p, Do(EraseKey, next));
    }

    method ReleaseZeroCopyBinding()
      modifies this, compositor, broker
      ensures Seen() == Perform(old(Seen()), Release(old(Abs())))
    {
      ghost var unbind := Do(SetPending(false), Unbind(Abs()));
      if surfaceKey != 0 {
        UnpublishZeroCopyReady(Do(EraseKey, unbind));
        ClearZeroCopyCompositorKey(unbind);
      }
      Unbound(unbind);
    }

    /** What release does whether or not there is a key. */
    method Unbound(ghost todo: Todo)
      requires todo == Do(SetPending(false), Unbind(Abs()))
      modifies this, broker
      ensures Seen() == Perform(old(Seen()), todo)
    {
      ghost var p := Seen();
      fallbackPending := false;
      ghost var rest := Observe(p, todo);
      assert rest == Unbind(Abs());
      DropBinding();
    }

    /** The second half of release. */
    method DropBinding()
      modifies this, broker
      ensures Seen() == Perform(old(Seen()), Unbind(old(Abs())))
    {
      ghost var p, todo := Seen(), Unbind(Abs());
      if registered {
        broker.DetachZeroCopyTarget(surfaceKey);
        todo := Observe(p, todo);
        p := Seen();
      }
      assert todo == Drop(Abs());
      Unregister();
    }

    method Unregister()
      modifies this
      ensures Seen() == Perform(old(Seen()), Drop(old(Abs())))
    {
      ghost var p := Seen();
      registered := false;
      ghost var todo := Observe(p, Drop(p.s));
      DropImage();
    }

    method DropImage()
      modifies this
      ensures Seen() == Perform(old(Seen()), if old(image) then Do(SetImage(false), Reset()) else Reset())
    {
      if image {
        ghost var p := Seen();
        image := false;
        ghost var todo := Observe(p, Do(SetImage(false), Reset()));
      }
      ResetBinding();
    }

    /** The fields release resets last. */
    method ResetBinding()
      modifies this
      ensures Seen() == Perform(old(Seen()), Reset())
    {
      ghost var p := Seen();
      hasFrame := false;
      ghost var todo := Observe(p, Reset());
      p := Seen();
      consecutiveFailures := 0;
      todo := Observe(p, todo);
      p := Seen();
      fallbackShmSerial := 0;
      todo := Observe(p, todo);
      p := Seen();
      surfaceKey := 0;
      todo := Observe(p, todo);
    }

    /** The registered half of the attach method; `layer` is the serial of the layer info, if there is a layer. */
    method PollLayer(layer: Option<nat>)
      modifies this, compositor, broker
      ensures Seen() == Perform(old(Seen()), Writes(old(Abs()), Poll(layer)))
    {
      if !registered {
        return;
      }
      if layer.None? {
        ReleaseZeroCopyBinding();
      } else if fallbackPending && layer.value > fallbackShmSerial {
        FallBack();
      }
    }

    /** CPU composition takes over. */
    method FallBack()
      modifies this, compositor
      ensures Seen() == Perform(old(Seen()), CpuFallback())
    {
      ghost var todo := CpuFallback().rest;
      ClearZeroCopyCompositorKey(todo);
      ghost var p := Seen();
      fallbackPending := false;
      todo := Observe(p, todo);
      p := Seen();
      hasFrame := false;
      todo := Observe(p, todo);
    }

    /** The binding half of the attach method for one offered surface, with the answers of the platform. */
    method BindSurface(key: Key, serial: nat, imageCreated: bool, listenerSet: bool, sent: bool) returns (ok: bool)
      modifies this, compositor, broker
      ensures ok <==> !old(registered) && key != 0 && imageCreated && listenerSet &&
                      (sent || key in old(broker.zeroCopyAttachedSurfaces))
      ensures Seen() == Perform(old(Seen()),
                                Writes(old(Abs()), if ok then Bind(key, serial) else BindFails(imageCreated)))
    {
      if registered {
        return false;
      }
      if !imageCreated {
        ReleaseZeroCopyBinding();
        return false;
      }
      ghost var p, fails := Seen(), Writes(Abs(), BindFails(true));
      image := true;
      ghost var todo := Observe(p, fails);
      assert todo == Release(Abs());
      assert Perform(p, Do(SetImage(true), Do(Attach(key), Adopt(key, serial)))) ==
             Perform(Seen(), Do(Attach(key), Adopt(key, serial)));
      ok := AttachSurface(key, serial, listenerSet, sent);
    }

    /** The part behind the creation of the image. */
    method AttachSurface(key: Key, serial: nat, listenerSet: bool, sent: bool) returns (ok: bool)
      modifies this, compositor, broker
      ensures ok <==> key != 0 && listenerSet && (sent || key in old(broker.zeroCopyAttachedSurfaces))
      ensures Seen() == Perform(old(Seen()), if ok then Do(Attach(key), Adopt(key, serial)) else Release(old(Abs())))
    {
      if !listenerSet {
        ReleaseZeroCopyBinding();
        return false;
      }
      ghost var p := Seen();
      ok := broker.AttachZeroCopyTarget(key, sent);
      if !ok {
        assert Seen() == p;
        ReleaseZeroCopyBinding();
        return false;
      }
      ghost var todo := Observe(p, Do(Attach(key), Adopt(key, serial)));
      AdoptSurface(key, serial);
    }

    /** The fields a successful bind sets. */
    method AdoptSurface(key: Key, serial: nat)
      modifies this
      ensures Seen() == Perform(old(Seen()), Adopt(key, serial))
    {
      ghost var p := Seen();
      surfaceKey := key;
      ghost var todo := Observe(p, Adopt(key, serial));
      p := Seen();
      registered := true;
      todo := Observe(p, todo);
      ResetFallback(serial);
    }

    method ResetFallback(serial: nat)
      modifies this
      ensures Seen() == Perform(old(Seen()), FreshFallback(serial))
    {
      ghost var p := Seen();
      fallbackPending := false;
      ghost var todo := Observe(p, FreshFallback(serial));
      p := Seen();
      fallbackShmSerial := serial;
      todo := Observe(p, todo);
      p := Seen();
      consecutiveFailures := 0;
      todo := Observe(p, todo);
    }

    /** The update method once a frame is available, with the answers of the platform. `layer` tells whether the
        compositor still knows the layer. */
    method UpdateZeroCopyFrame(updated: bool, layer: bool, markerCreated: bool) returns (shown: bool)
      modifies this, compositor, broker
      ensures shown <==> old(registered) && old(image) && updated && layer
      ensures Seen() == Perform(old(Seen()), Writes(old(Abs()), Update(
                if !updated then Failed(layer) else if layer then Shown(markerCreated) else LayerGone)))
    {
      if !registered || !image {
        return false;
      }
      if !updated {
        UpdateFailed(layer);
        return false;
      }
      ghost var p, todo := Seen(), UpdateWrites(Abs(), if layer then Shown(markerCreated) else LayerGone);
      consecutiveFailures := 0;
      todo := Observe(p, todo);
      if !layer {
        assert todo == Release(Abs());
        ReleaseZeroCopyBinding();
        return false;
      }
      assert todo == Do(SetHasFrame(true), Recover(Abs(), markerCreated));
      ShowFrame(markerCreated);
      return true;
    }

    method ShowFrame(markerCreated: bool)
      modifies this, compositor, broker
      ensures Seen() == Perform(old(Seen()), Do(SetHasFrame(true), Recover(old(Abs()), markerCreated)))
    {
      ghost var p := Seen();
      hasFrame := true;
      ghost var todo := Observe(p, Do(SetHasFrame(true), Recover(p.s, markerCreated)));
      assert todo == Recover(Abs(), markerCreated);
      CancelFallback(markerCreated);
    }

    /** A frame ends a pending fallback, and publishes again. */
    method CancelFallback(markerCreated: bool)
      modifies this, compositor, broker
      ensures Seen() == Perform(old(Seen()), Recover(old(Abs()), markerCreated))
    {
      if fallbackPending {
        ghost var p := Seen();
        fallbackPending := false;
        ghost var todo := Observe(p, Recover(p.s, markerCreated));
        assert todo == PublishActive(Abs(), markerCreated, Done);
      }
      PublishZeroCopyActive(markerCreated);
    }

    /** The failure path of the update method. */
    method UpdateFailed(layer: bool)
      requires registered && image
      modifies this, compositor, broker
      ensures Seen() == Perform(old(Seen()), UpdateWrites(old(Abs()), Failed(layer)))
    {
      ghost var p, todo := Seen(), UpdateWrites(Abs(), Failed(layer));
      consecutiveFailures := (consecutiveFailures + 1) % 0x1_0000_0000;
      todo := Observe(p, todo);
      if readyPublished && !fallbackPending && consecutiveFailures >= REVOKE_AFTER {
        assert todo == RevokeWrites(Abs(), layer);
        Revoke(layer);
      }
    }

    /** Takes the marker back, and remembers the serial behind which the fallback may take over. */
    method Revoke(layer: bool)
      requires readyPublished
      modifies this, compositor, broker
      ensures Seen() == Perform(old(Seen()), RevokeWrites(old(Abs()), layer))
    {
      ghost var p, todo := Seen(), RevokeWrites(Abs(), layer);
      if layer {
        fallbackShmSerial := compositor.shmCommitSerial;
        todo := Observe(p, todo);
      }
      assert todo == UnpublishReady(Abs(), Do(SetPending(true), Done));
      UnpublishZeroCopyReady(Do(SetPending(true), Done));
      p := Seen();
      fallbackPending := true;
      todo := Observe(p, Do(SetPending(true), Done));
    }
  }

  // ---- What the other threads do ----

  /** Each step of another thread does to the objects what the protocol says of it, and puts nothing on the renderer's
      record: a client commits a frame, a surface is destroyed, the broker shuts down, markers are swept. */
  method Interrupt(r: EglRenderer, step: Step)
    requires !step.Begin? && !step.Next?
    modifies r.compositor, r.broker
    ensures r.Seen() == Performance(Interfere(old(r.Abs()), step), old(r.trace))
  {
    match step
    case ShmCommit => r.compositor.shmCommitSerial := r.compositor.shmCommitSerial + 1;
    case SurfaceDestroyed(surfaceKey) => DestroySurface(r, surfaceKey);
    case BrokerShutdown => r.broker.ShutdownVirglIpc();
    case MarkerSweep => r.broker.RemoveStaleZeroCopyMarkers();
  }

  method DestroySurface(r: EglRenderer, surfaceKey: Key)
    modifies r.compositor
    ensures r.Seen() == Performance(Interfere(old(r.Abs()), SurfaceDestroyed(surfaceKey)), old(r.trace))
  {
    r.compositor.RemoveZeroCopyKey(surfaceKey);
    if surfaceKey == r.surfaceKey || r.surfaceKey == 0 {
      r.compositor.shmCommitSerial := 0;
    }
  }
}
