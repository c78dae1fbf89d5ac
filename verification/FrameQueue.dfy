/** The singly linked queue of frames that were read before anyone asked for them, and what
    each of the code paths that rewire its two pointers does to the sequence it stands for. */
module FrameQueue {
  import opened FieldTable
  import opened FrameParser

  /** The channel field of a frame; a protocol header carries channel 0. */
  function ItemChannel(item: Item): uint16 {
    if item.FrameItem? then item.frame.channel else 0
  }

  /** The position of the first item on `channel`, or the length when there is none. */
  function FirstOn(items: seq<Item>, channel: uint16): (k: nat)
    ensures k <= |items|
    ensures forall j :: 0 <= j < k ==> ItemChannel(items[j]) != channel
    ensures k < |items| ==> ItemChannel(items[k]) == channel
  {
    if items == [] || ItemChannel(items[0]) == channel then 0 else 1 + FirstOn(items[1..], channel)
  }

  class Link {
    var next: Link?
    var data: Item

    constructor (data: Item)
      ensures this.data == data && next == null
    {
      this.data := data;
      next := null;
    }
  }

  class Queue {
    var first: Link?
    var last: Link?
    ghost var links: seq<Link>

    /** The list from `first` is exactly `links`; `last` is its end, and the two pointers are
        null together. */
    ghost predicate Valid()
      reads this, links
    {
      && (first == null <==> last == null)
      && (links == [] <==> first == null)
      && (links != [] ==> first == links[0] && last == links[|links| - 1])
      && (forall i, j :: 0 <= i < j < |links| ==> links[i] != links[j])
      && (forall i :: 0 <= i < |links| ==> links[i].next == LinkAt(i + 1))
    }

    ghost function LinkAt(i: nat): Link?
      reads this
    {
      if i < |links| then links[i] else null
    }

    ghost function Items(): seq<Item>
      reads this, links
    {
      seq(|links|, i requires 0 <= i < |links| reads this, links => links[i].data)
    }

    constructor ()
      ensures Valid() && Items() == [] && links == []
    {
      first, last, links := null, null, [];
    }

    /** One link more at the end keeps the list linked, once the old end points to it. */
    lemma LinkedOn(before: seq<Link>, link: Link)
      requires links == before + [link] && link !in before && link.next == null
      requires forall i, j :: 0 <= i < j < |before| ==> before[i] != before[j]
      requires forall i :: 0 <= i < |before| ==> before[i].next == LinkAt(i + 1)
      ensures forall i, j :: 0 <= i < j < |links| ==> links[i] != links[j]
      ensures forall i :: 0 <= i < |links| ==> links[i].next == LinkAt(i + 1)
    {
      forall i | 0 <= i < |links| ensures links[i].next == LinkAt(i + 1) {
        if i < |before| {
          assert links[i] == before[i];
        }
      }
    }

    /** Without its first `k` links the list is still linked, and holds the items behind them. */
    twostate lemma LinksDropped(k: nat)
      requires old(Valid()) && k <= |old(links)| && links == old(links)[k..]
      requires forall l :: l in links ==> unchanged(l)
      ensures forall i, j :: 0 <= i < j < |links| ==> links[i] != links[j]
      ensures forall i :: 0 <= i < |links| ==> links[i].next == LinkAt(i + 1)
      ensures Items() == old(Items())[k..]
    {
      forall i | 0 <= i < |links|
        ensures links[i] == old(links)[k + i] && links[i].next == LinkAt(i + 1)
        ensures links[i].data == old(links[k + i].data)
      {
        assert links[i] in links;
        assert old(links[k + i].next) == old(LinkAt(k + i + 1));
      }
    }

    /** With one more link in front, which points to the old first one, the list is still linked. */
    twostate lemma LinkPushed(new link: Link)
      requires old(Valid()) && fresh(link) && links == [link] + old(links)
      requires link.next == old(LinkAt(0)) && forall l :: l in old(links) ==> unchanged(l)
      ensures forall i, j :: 0 <= i < j < |links| ==> links[i] != links[j]
      ensures forall i :: 0 <= i < |links| ==> links[i].next == LinkAt(i + 1)
    {
      hide Items;
      forall i | 0 < i < |links|
        ensures links[i] == old(links)[i - 1] && links[i] != link && links[i].next == LinkAt(i + 1)
      {
        assert links[i] in old(links);
        assert old(links[i - 1].next) == old(LinkAt(i));
      }
    }

    twostate lemma ItemPushed(new link: Link)
      requires links == [link] + old(links) && forall l :: l in old(links) ==> unchanged(l)
      ensures Items() == [link.data] + old(Items())
    {
      forall i | 0 < i < |links| ensures links[i].data == old(links[i - 1].data) {
        assert links[i] == old(links)[i - 1] && links[i] in old(links);
      }
    }

    /** `amqp_queue_frame` */
    method Enqueue(item: Item)
      requires Valid()
      modifies this, links
      ensures Valid() && Items() == old(Items()) + [item]
      ensures |links| == |old(links)| + 1 && links[..|links| - 1] == old(links) && fresh(links[|links| - 1])
    {
      var link := new Link(item);
      if first == null {
        first := link;
      } else {
        last.next := link;
      }
      last := link;
      links := links + [link];
      LinkedOn(old(links), link);
    }

    /** The same append as `amqp_try_recv` and `simple_rpc_inner` write it out: they test the
        other pointer. */
    method Append(item: Item)
      requires Valid()
      modifies this, links
      ensures Valid() && Items() == old(Items()) + [item]
      ensures |links| == |old(links)| + 1 && links[..|links| - 1] == old(links) && fresh(links[|links| - 1])
    {
      var link := new Link(item);
      if last == null {
        first := link;
      } else {
        last.next := link;
      }
      last := link;
      links := links + [link];
      LinkedOn(old(links), link);
    }

    /** `amqp_put_back_frame` */
    method PutBack(item: Item)
      requires Valid()
      modifies this
      ensures Valid() && Items() == [item] + old(Items())
      ensures |links| == |old(links)| + 1 && links[1..] == old(links) && fresh(links[0])
    {
      var link := new Link(item);
      if first == null {
        first, last := link, link;
      } else {
        link.next := first;
        first := link;
      }
      links := [link] + links;
      LinkPushed(link);
      ItemPushed(link);
    }

    /** The front of `amqp_simple_wait_frame_noblock`. */
    method Dequeue() returns (item: Item)
      requires Valid() && first != null
      modifies this
      ensures Valid() && [item] + Items() == old(Items())
      ensures links == old(links)[1..]
    {
      item := first.data;
      assert first == links[0] && links[0].next == LinkAt(1);
      first := first.next;
      if first == null {
        last := null;
      }
      links := links[1..];
      LinksDropped(1);
    }

    /** The queue now starts behind the link `cur`, which is `links[i]`. */
    method DropThrough(cur: Link, ghost i: nat)
      requires Valid() && i < |links| && links[i] == cur
      modifies this
      ensures Valid() && links == old(links)[i + 1..] && Items() == old(Items())[i + 1..]
    {
      assert cur.next == LinkAt(i + 1);
      first := cur.next;
      if first == null {
        last := null;
      }
      links := links[i + 1..];
      LinksDropped(i + 1);
    }

    /** The search of `amqp_simple_wait_frame_on_channel`: a match is taken together with
        everything ahead of it, which is lost; without a match nothing changes. */
    method TakeOn(channel: uint16) returns (found: bool, item: Item)
      requires Valid()
      modifies this
      ensures Valid()
      ensures found <==> FirstOn(old(Items()), channel) < |old(Items())|
      ensures found ==> var k := FirstOn(old(Items()), channel);
                item == old(Items())[k] && Items() == old(Items())[k + 1..] && links == old(links)[k + 1..]
      ensures !found ==> Items() == old(Items()) && links == old(links)
    {
      hide FirstOn;
      item := ProtocolItem(0, 0, 0, 0);
      ghost var items := Items();
      var cur := first;
      ghost var i := 0;
      while cur != null
        invariant 0 <= i <= |links| && cur == LinkAt(i)
        invariant forall j :: 0 <= j < i ==> ItemChannel(items[j]) != channel
        decreases |links| - i
      {
        assert items[i] == cur.data;
        if ItemChannel(cur.data) == channel {
          FirstOnIs(items, channel, i);
          DropThrough(cur, i);
          return true, cur.data;
        }
        assert links[i].next == LinkAt(i + 1);
        cur := cur.next;
        i := i + 1;
      }
      FirstOnIs(items, channel, |items|);
      return false, item;
    }
  }

  lemma {:induction false} FirstOnIs(items: seq<Item>, channel: uint16, k: nat)
    requires k <= |items| && forall j :: 0 <= j < k ==> ItemChannel(items[j]) != channel
    requires k < |items| ==> ItemChannel(items[k]) == channel
    ensures FirstOn(items, channel) == k
  {
    if k > 0 {
      FirstOnIs(items[1..], channel, k - 1);
    }
  }
}
