/**
 * The paste helper waypaste: which data offer is accepted, and
 * when the accepted offer's data is transferred into the scratch file.
 * The wlr data-control protocol ("zwlr") and the core protocol ("wl")
 * each keep their own accepted offer and run the same handlers.
 */
module Waypaste {
  import opened Wrappers
  import opened StagingFile

  /** A data offer, known by its proxy identity. */
  type Offer = nat

  datatype Protocol = Zwlr | Wl

  /**
   * `offer_offer_*`: the accepted offer after `offer` advertises `mime`.
   * An offer already accepted stays; otherwise the offer is taken exactly
   * when its mime type is the requested one.
   */
  function OfferStep(accepted: Option<Offer>, offer: Offer, mime: string, wanted: string): (r: Option<Offer>)
    ensures accepted.Some? ==> r == accepted
    ensures accepted.None? ==> (r == Some(offer) <==> mime == wanted) && (r.None? <==> mime != wanted)
  {
    if accepted.Some? then accepted
    else if mime == wanted then Some(offer)
    else None
  }

  /** The accepted offer after a run of offer events. */
  function AcceptAll(accepted: Option<Offer>, offers: seq<(Offer, string)>, wanted: string): Option<Offer>
    decreases |offers|
  {
    if offers == [] then accepted
    else AcceptAll(OfferStep(accepted, offers[0].0, offers[0].1, wanted), offers[1..], wanted)
  }

  /** The first offer of a run whose mime type is the wanted one. */
  function FirstMatch(offers: seq<(Offer, string)>, wanted: string): (r: Option<Offer>)
    ensures r.None? <==> forall j :: 0 <= j < |offers| ==> offers[j].1 != wanted
    decreases |offers|
  {
    if offers == [] then None
    else if offers[0].1 == wanted then Some(offers[0].0)
    else FirstMatch(offers[1..], wanted)
  }

  /**
   * Between two selection events the first offer of the wanted type wins,
   * and once one is accepted every later offer is ignored.
   */
  lemma {:induction false} FirstOfferWins(accepted: Option<Offer>, offers: seq<(Offer, string)>, wanted: string)
    ensures accepted.Some? ==> AcceptAll(accepted, offers, wanted) == accepted
    ensures accepted.None? ==> AcceptAll(accepted, offers, wanted) == FirstMatch(offers, wanted)
    decreases |offers|
  {
    if offers != [] {
      FirstOfferWins(OfferStep(accepted, offers[0].0, offers[0].1, wanted), offers[1..], wanted);
    }
  }

  /** `receive_*`: the transfer runs only when `cond` holds and the selected offer is the accepted one. */
  function Transfers(accepted: Option<Offer>, cond: bool, offer: Offer): bool
  {
    cond && accepted == Some(offer)
  }

  /** The globals `acceptedoffer_zwlr` / `acceptedoffer_wl`, the options, and the scratch file `g_fd`. */
  class Paster {
    var acceptedZwlr: Option<Offer>
    var acceptedWl: Option<Offer>
    /** Offers destroyed so far, in order. */
    var destroyed: seq<Offer>
    /** `options.type` */
    const wanted: string
    /** `options.primary` */
    const primary: bool
    const file: ScratchFile

    constructor (wanted: string, primary: bool, file: ScratchFile)
      ensures acceptedZwlr.None? && acceptedWl.None? && destroyed == []
      ensures this.wanted == wanted && this.primary == primary && this.file == file
    {
      acceptedZwlr := None;
      acceptedWl := None;
      destroyed := [];
      this.wanted := wanted;
      this.primary := primary;
      this.file := file;
    }

    function Accepted(p: Protocol): Option<Offer>
      reads this
    {
      if p == Zwlr then acceptedZwlr else acceptedWl
    }

    /** `offer_offer_zwlr` / `offer_offer_wl` */
    method OfferOffer(p: Protocol, offer: Offer, mime: string)
      modifies this
      ensures Accepted(p) == OfferStep(old(Accepted(p)), offer, mime, wanted)
      ensures Accepted(if p == Zwlr then Wl else Zwlr) == old(Accepted(if p == Zwlr then Wl else Zwlr))
      ensures destroyed == old(destroyed)
    {
      if Accepted(p).Some? {
        return;
      }
      if mime == wanted {
        if p == Zwlr {
          acceptedZwlr := Some(offer);
        } else {
          acceptedWl := Some(offer);
        }
      }
    }

    /**
     * `receive_zwlr` / `receive_wl`: when the transfer runs, the file is
     * truncated and the data the offering client sends is written at the
     * offset of `g_fd`, which the truncation does not move: the file holds
     * as many NUL bytes as earlier transfers wrote, then the data.  In every
     * case the accepted offer is destroyed and cleared.
     */
    method Receive(p: Protocol, cond: bool, offer: Offer, data: string)
      modifies this, file
      ensures Transfers(old(Accepted(p)), cond, offer) ==>
        file.text == Zeros(old(file.pos)) + data && file.pos == old(file.pos) + |data|
      ensures !Transfers(old(Accepted(p)), cond, offer) ==> file.text == old(file.text) && file.pos == old(file.pos)
      ensures Accepted(p).None?
      ensures Accepted(if p == Zwlr then Wl else Zwlr) == old(Accepted(if p == Zwlr then Wl else Zwlr))
      ensures destroyed == old(destroyed) + (if old(Accepted(p)).Some? then [old(Accepted(p)).value] else [])
    {
      var accepted := Accepted(p);
      if cond && accepted == Some(offer) {
        file.Truncate();
        WriteIntoEmpty(file.pos, data);
        file.Write(data);
      }
      if accepted.Some? {
        destroyed := destroyed + [accepted.value];
      }
      if p == Zwlr {
        acceptedZwlr := None;
      } else {
        acceptedWl := None;
      }
    }

    /**
     * `receive_*` with the evidently intended `lseek(g_fd, 0, SEEK_SET)`
     * after the truncation: the file holds exactly the newest transfer.
     */
    method ReceiveRewound(p: Protocol, cond: bool, offer: Offer, data: string)
      modifies this, file
      ensures Transfers(old(Accepted(p)), cond, offer) ==> file.text == data && file.pos == |data|
      ensures !Transfers(old(Accepted(p)), cond, offer) ==> file.text == old(file.text) && file.pos == old(file.pos)
      ensures Accepted(p).None?
      ensures Accepted(if p == Zwlr then Wl else Zwlr) == old(Accepted(if p == Zwlr then Wl else Zwlr))
      ensures destroyed == old(destroyed) + (if old(Accepted(p)).Some? then [old(Accepted(p)).value] else [])
    {
      var accepted := Accepted(p);
      if cond && accepted == Some(offer) {
        file.Truncate();
        file.Rewind();
        WriteIntoEmpty(0, data);
        file.Write(data);
      }
      if accepted.Some? {
        destroyed := destroyed + [accepted.value];
      }
      if p == Zwlr {
        acceptedZwlr := None;
      } else {
        acceptedWl := None;
      }
    }

    /**
     * `control_data_selection_zwlr` / `control_data_selection_wl`: a
     * regular selection is taken unless the primary selection was asked
     * for; a null offer does nothing.
     */
    method ControlDataSelection(p: Protocol, offer: Option<Offer>, data: string)
      modifies this, file
      ensures offer.None? ==>
        Accepted(p) == old(Accepted(p)) && file.text == old(file.text) && file.pos == old(file.pos) && destroyed == old(destroyed)
      ensures offer.Some? ==>
        && Accepted(p).None?
        && destroyed == old(destroyed) + (if old(Accepted(p)).Some? then [old(Accepted(p)).value] else [])
        && (if Transfers(old(Accepted(p)), !primary, offer.value)
            then file.text == Zeros(old(file.pos)) + data && file.pos == old(file.pos) + |data|
            else file.text == old(file.text) && file.pos == old(file.pos))
      ensures Accepted(if p == Zwlr then Wl else Zwlr) == old(Accepted(if p == Zwlr then Wl else Zwlr))
    {
      if offer.Some? {
        Receive(p, !primary, offer.value, data);
      }
    }

    /** `control_data_primary_selection_zwlr`: the primary selection is taken only when it was asked for. */
    method ControlDataPrimarySelection(offer: Option<Offer>, data: string)
      modifies this, file
      ensures offer.None? ==>
        acceptedZwlr == old(acceptedZwlr) && file.text == old(file.text) && file.pos == old(file.pos) && destroyed == old(destroyed)
      ensures offer.Some? ==>
        && acceptedZwlr.None?
        && destroyed == old(destroyed) + (if old(acceptedZwlr).Some? then [old(acceptedZwlr).value] else [])
        && (if Transfers(old(acceptedZwlr), primary, offer.value)
            then file.text == Zeros(old(file.pos)) + data && file.pos == old(file.pos) + |data|
            else file.text == old(file.text) && file.pos == old(file.pos))
      ensures acceptedWl == old(acceptedWl)
    {
      if offer.Some? {
        Receive(Zwlr, primary, offer.value, data);
      }
    }
  }

  /**
   * A regular copy while the regular selection is wanted: of the offers
   * "text/html" (1) and "text/plain" (2, then 3), offer 2 is accepted and
   * its data lands in the new file; selecting offer 3 afterwards moves nothing.
   */
  method RegularCopyScenario() returns (paster: Paster)
    ensures fresh(paster.file)
    ensures paster.file.text == "hello" && paster.file.pos == 5
    ensures paster.acceptedZwlr.None? && paster.destroyed == [2]
    ensures paster.wanted == "text/plain" && !paster.primary
  {
    var file := new ScratchFile();
    paster := new Paster("text/plain", false, file);
    paster.OfferOffer(Zwlr, 1, "text/html");
    paster.OfferOffer(Zwlr, 2, "text/plain");
    paster.OfferOffer(Zwlr, 3, "text/plain");
    paster.ControlDataSelection(Zwlr, Some(2), "hello");
    assert Zeros(0) + "hello" == "hello";
    paster.ControlDataSelection(Zwlr, Some(3), "ignored");
  }

  /**
   * Two selections in a row, "hello" and then "world", with the listener
   * emptying the file in between: the second transfer is written at offset 5,
   * so the file holds five NUL bytes before "world".
   */
  method SecondSelectionPadded() returns (paster: Paster)
    ensures fresh(paster.file)
    ensures paster.file.text == "\0\0\0\0\0world" && paster.file.text != "world"
  {
    paster := RegularCopyScenario();
    paster.file.Truncate();
    paster.OfferOffer(Zwlr, 4, "text/plain");
    paster.ControlDataSelection(Zwlr, Some(4), "world");
    assert Zeros(5) == "\0\0\0\0\0";
  }
}
