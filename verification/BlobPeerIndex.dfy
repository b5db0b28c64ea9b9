/**
 Which peers have which blobs (src/storage/iroh_blob_store.rs): two maps that hold
 one relation from either side.
 */
module BlobPeerIndexes {
  import opened Bytes

  type EndpointId = seq<Byte>

  type BlobHash = string

  predicate Linked<K(==), V(==)>(m: map<K, set<V>>, k: K, v: V) {
    k in m && v in m[k]
  }

  /** The maps hold the same pairs, and no blob is kept without a peer. */
  ghost predicate Inverse(blobToPeers: map<BlobHash, set<EndpointId>>, peerToBlobs: map<EndpointId, set<BlobHash>>) {
    && (forall hash: BlobHash, peer: EndpointId :: Linked(blobToPeers, hash, peer) <==> Linked(peerToBlobs, peer, hash))
    && (forall hash :: hash in blobToPeers ==> blobToPeers[hash] != {})
  }

  class BlobPeerIndex {
    var blobToPeers: map<BlobHash, set<EndpointId>>
    var peerToBlobs: map<EndpointId, set<BlobHash>>

    ghost predicate Valid()
      reads this
    {
      Inverse(blobToPeers, peerToBlobs)
    }

    ghost predicate Has(peer: EndpointId, hash: BlobHash)
      reads this
    {
      Linked(peerToBlobs, peer, hash)
    }

    constructor ()
      ensures Valid() && forall peer: EndpointId, hash: BlobHash :: !Has(peer, hash)
    {
      blobToPeers, peerToBlobs := map[], map[];
    }

    /** Exactly that pair is added. */
    method Advertise(peer: EndpointId, hash: BlobHash)
      requires Valid()
      modifies this
      ensures Valid()
      ensures forall p: EndpointId, h: BlobHash :: Has(p, h) <==> old(Has(p, h)) || (p == peer && h == hash)
    {
      var peers := if hash in blobToPeers then blobToPeers[hash] else {};
      blobToPeers := blobToPeers[hash := peers + {peer}];
      var blobs := if peer in peerToBlobs then peerToBlobs[peer] else {};
      peerToBlobs := peerToBlobs[peer := blobs + {hash}];
      forall h: BlobHash, p: EndpointId ensures Linked(blobToPeers, h, p) <==> Linked(peerToBlobs, p, h) {
        assert old(Linked(blobToPeers, h, p) <==> Linked(peerToBlobs, p, h));
      }
    }

    /** Exactly the pairs of the peer go; its blobs are visited in no particular order. */
    method RemovePeer(peer: EndpointId)
      requires Valid()
      modifies this
      ensures Valid()
      ensures forall p: EndpointId, h: BlobHash :: Has(p, h) <==> old(Has(p, h)) && p != peer
    {
      if peer in peerToBlobs {
        var todo := peerToBlobs[peer];
        peerToBlobs := peerToBlobs - {peer};
        ghost var was, blobs := blobToPeers, todo;
        while todo != {}
          invariant todo <= blobs && peerToBlobs == old(peerToBlobs) - {peer}
          invariant Erased(was, blobToPeers, peer, blobs - todo)
          invariant forall h :: h in blobToPeers ==> blobToPeers[h] != {}
        {
          var hash :| hash in todo;
          ErasedStep(was, blobToPeers, peer, blobs - todo, hash);
          assert blobs - (todo - {hash}) == blobs - todo + {hash};
          if hash in blobToPeers {
            var peers := blobToPeers[hash] - {peer};
            if peers == {} {
              blobToPeers := blobToPeers - {hash};
            } else {
              blobToPeers := blobToPeers[hash := peers];
            }
          }
          todo := todo - {hash};
        }
        forall h: BlobHash, p: EndpointId ensures Linked(blobToPeers, h, p) <==> Linked(peerToBlobs, p, h) {
          assert old(Linked(blobToPeers, h, p) <==> Linked(peerToBlobs, p, h));
        }
      }
    }
  }

  /** The peer is gone from the listed blobs, and nothing else is. */
  ghost predicate Erased(was: map<BlobHash, set<EndpointId>>, now: map<BlobHash, set<EndpointId>>, peer: EndpointId,
                         done: set<BlobHash>)
  {
    forall h: BlobHash, p: EndpointId :: Linked(now, h, p) <==> Linked(was, h, p) && !(p == peer && h in done)
  }

  lemma ErasedStep(was: map<BlobHash, set<EndpointId>>, now: map<BlobHash, set<EndpointId>>, peer: EndpointId,
                   done: set<BlobHash>, hash: BlobHash)
    requires Erased(was, now, peer, done)
    ensures hash !in now ==> Erased(was, now, peer, done + {hash})
    ensures hash in now ==> Erased(was, now[hash := now[hash] - {peer}], peer, done + {hash})
    ensures hash in now && now[hash] - {peer} == {} ==> Erased(was, now - {hash}, peer, done + {hash})
  {
    forall h: BlobHash, p: EndpointId
      ensures Linked(now, h, p) <==> Linked(was, h, p) && !(p == peer && h in done)
    {
      ErasedAt(was, now, peer, done, h, p);
    }
    if hash in now {
      var less := now[hash := now[hash] - {peer}];
      forall h: BlobHash, p: EndpointId
        ensures Linked(less, h, p) <==> Linked(was, h, p) && !(p == peer && h in done + {hash})
      {
        ErasedAt(was, now, peer, done, h, p);
      }
    }
  }

  lemma ErasedAt(was: map<BlobHash, set<EndpointId>>, now: map<BlobHash, set<EndpointId>>, peer: EndpointId,
                 done: set<BlobHash>, h: BlobHash, p: EndpointId)
    requires Erased(was, now, peer, done)
    ensures Linked(now, h, p) <==> Linked(was, h, p) && !(p == peer && h in done)
  {
  }
}
