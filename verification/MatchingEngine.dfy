/** Price-time priority matching: two books of price levels and a trade log. */
module MatchingEngine {

  datatype Side = Buy | Sell
  datatype Order = Order(id: nat, side: Side, price: real, quantity: nat, timestamp: nat)
  datatype Trade = Trade(buyId: nat, sellId: nat, price: real, quantity: nat)

  /** One entry of the ordered map from price to the orders resting there, oldest first. */
  datatype Level = Level(price: real, orders: seq<Order>)

  /** Price p is served before price q on the given side: low asks, high bids. */
  predicate Ahead(side: Side, p: real, q: real) {
    if side == Sell then p < q else p > q
  }

  /** An incoming order on this side at this limit may trade at a resting price. */
  predicate Crosses(side: Side, limit: real, resting: real) {
    if side == Buy then limit >= resting else limit <= resting
  }

  function Other(side: Side): Side {
    if side == Buy then Sell else Buy
  }

  // ----- Books as flat priority lists -----

  ghost function Flat(levels: seq<Level>): seq<Order> {
    if levels == [] then [] else levels[0].orders + Flat(levels[1..])
  }

  ghost predicate RestsAt(side: Side, price: real, o: Order) {
    o.price == price && o.side == side && o.quantity > 0
  }

  ghost predicate LevelOk(side: Side, level: Level) {
    && level.orders != []
    && forall o {:trigger RestsAt(side, level.price, o)} :: o in level.orders ==> RestsAt(side, level.price, o)
  }

  ghost predicate LevelsOk(side: Side, levels: seq<Level>) {
    && (forall i {:trigger LevelOk(side, levels[i])} :: 0 <= i < |levels| ==> LevelOk(side, levels[i]))
    && (forall i, j {:trigger Ahead(side, levels[i].price, levels[j].price)} ::
          0 <= i < j < |levels| ==> Ahead(side, levels[i].price, levels[j].price))
  }

  /** a is served before b: better price, or the same price and earlier arrival. */
  ghost predicate Prior(side: Side, a: Order, b: Order) {
    Ahead(side, a.price, b.price) || (a.price == b.price && a.timestamp < b.timestamp && a.id < b.id)
  }

  ghost predicate BookOk(side: Side, book: seq<Order>, nextId: nat, clock: nat) {
    && (forall i :: 0 <= i < |book| ==>
          book[i].side == side && book[i].quantity > 0 && book[i].id < nextId && book[i].timestamp < clock)
    && (forall i, j :: 0 <= i < j < |book| ==> Prior(side, book[i], book[j]))
  }

  // ----- Specification of one submission -----

  datatype Outcome = Outcome(trades: seq<Trade>, left: nat, book: seq<Order>)

  function MakeTrade(side: Side, id: nat, resting: Order, quantity: nat): Trade {
    if side == Buy then Trade(id, resting.id, resting.price, quantity)
    else Trade(resting.id, id, resting.price, quantity)
  }

  /** Greedy walk of the opposite book from its head. */
  ghost function Sweep(side: Side, limit: real, id: nat, qty: nat, book: seq<Order>): Outcome
    decreases |book|
  {
    if qty == 0 || book == [] || !Crosses(side, limit, book[0].price) then Outcome([], qty, book)
    else if qty < book[0].quantity then
      Outcome([MakeTrade(side, id, book[0], qty)], 0,
              [book[0].(quantity := book[0].quantity - qty)] + book[1..])
    else
      var rest := Sweep(side, limit, id, qty - book[0].quantity, book[1..]);
      Outcome([MakeTrade(side, id, book[0], book[0].quantity)] + rest.trades, rest.left, rest.book)
  }

  /** Queue an order behind everything that is not worse priced. */
  ghost function Insert(book: seq<Order>, o: Order): seq<Order> {
    if book == [] || Ahead(o.side, o.price, book[0].price) then [o] + book
    else [book[0]] + Insert(book[1..], o)
  }

  /** The engine's state with its books flattened. */
  datatype Market = Market(bids: seq<Order>, asks: seq<Order>, trades: seq<Trade>, nextId: nat, clock: nat)

  datatype Request = Request(side: Side, price: real, quantity: nat)

  /** Sweep the opposite book, log the trades, rest what is left. */
  ghost function Match(m: Market, o: Order): Market {
    var out := Sweep(o.side, o.price, o.id, o.quantity, if o.side == Buy then m.asks else m.bids);
    var own := if o.side == Buy then m.bids else m.asks;
    var own' := if out.left > 0 then Insert(own, o.(quantity := out.left)) else own;
    if o.side == Buy then m.(bids := own', asks := out.book, trades := m.trades + out.trades)
    else m.(bids := out.book, asks := own', trades := m.trades + out.trades)
  }

  ghost function Submit(m: Market, r: Request): Market {
    Match(m.(nextId := m.nextId + 1, clock := m.clock + 1), Order(m.nextId, r.side, r.price, r.quantity, m.clock))
  }

  const EMPTY: Market := Market([], [], [], 1, 0)

  ghost function Run(rs: seq<Request>): Market {
    if rs == [] then EMPTY else Submit(Run(rs[..|rs| - 1]), rs[|rs| - 1])
  }

  // ----- What a sweep trades, stated without reference to the walk -----

  ghost function Total(book: seq<Order>): nat {
    if book == [] then 0 else Total(book[..|book| - 1]) + book[|book| - 1].quantity
  }

  /** What the i-th resting order is due: nothing if it does not cross, else whatever the
      orders ahead of it leave over, up to its own size. */
  ghost function Due(side: Side, limit: real, qty: nat, book: seq<Order>, i: nat): nat
    requires i < |book|
  {
    if !Crosses(side, limit, book[i].price) || qty <= Total(book[..i]) then 0
    else if qty - Total(book[..i]) < book[i].quantity then qty - Total(book[..i])
    else book[i].quantity
  }

  /** The trades against book[i..], each for exactly what is due. */
  ghost function DueTrades(side: Side, limit: real, id: nat, qty: nat, book: seq<Order>, i: nat): seq<Trade>
    requires i <= |book|
    decreases |book| - i
  {
    if i == |book| then []
    else
      var due := Due(side, limit, qty, book, i);
      var buyer, seller := if side == Buy then id else book[i].id, if side == Buy then book[i].id else id;
      (if due > 0 then [Trade(buyer, seller, book[i].price, due)] else []) + DueTrades(side, limit, id, qty, book, i + 1)
  }

  /** What is left of an order. */
  ghost function LessDue(o: Order, due: nat): seq<Order> {
    if due < o.quantity then [o.(quantity := o.quantity - due)] else []
  }

  /** book[i..] less what is due, exhausted orders removed. */
  ghost function DueBook(side: Side, limit: real, qty: nat, book: seq<Order>, i: nat): seq<Order>
    requires i <= |book|
    decreases |book| - i
  {
    if i == |book| then []
    else LessDue(book[i], Due(side, limit, qty, book, i)) + DueBook(side, limit, qty, book, i + 1)
  }

  ghost predicate Served(side: Side, book: seq<Order>) {
    && (forall i :: 0 <= i < |book| ==> book[i].quantity > 0)
    && (forall i, j :: 0 <= i < j < |book| ==> !Ahead(side, book[j].price, book[i].price))
  }

  lemma {:induction false} TotalTail(book: seq<Order>, i: nat)
    requires 1 <= i <= |book|
    ensures Total(book[..i]) == book[0].quantity + Total(book[1..][..i - 1])
  {
    assert book[..i][..i - 1] == book[..i - 1];
    if i > 1 {
      TotalTail(book, i - 1);
      assert book[1..][..i - 1][..i - 2] == book[1..][..i - 2];
    }
  }

  lemma {:induction false} DueTradesShift(side: Side, limit: real, id: nat, qty: nat, book: seq<Order>, i: nat)
    requires 1 <= i <= |book| && qty >= book[0].quantity
    ensures DueTrades(side, limit, id, qty, book, i)
         == DueTrades(side, limit, id, qty - book[0].quantity, book[1..], i - 1)
    decreases |book| - i
  {
    if i < |book| {
      DueAtShift(side, limit, qty, book, i);
      DueTradesShift(side, limit, id, qty, book, i + 1);
    }
  }

  lemma {:induction false} DueBookShift(side: Side, limit: real, qty: nat, book: seq<Order>, i: nat)
    requires 1 <= i <= |book| && qty >= book[0].quantity
    ensures DueBook(side, limit, qty, book, i) == DueBook(side, limit, qty - book[0].quantity, book[1..], i - 1)
    decreases |book| - i
  {
    if i < |book| {
      DueAtShift(side, limit, qty, book, i);
      DueBookShift(side, limit, qty, book, i + 1);
    }
  }

  lemma DueAtShift(side: Side, limit: real, qty: nat, book: seq<Order>, i: nat)
    requires 1 <= i < |book| && qty >= book[0].quantity
    ensures Due(side, limit, qty, book, i) == Due(side, limit, qty - book[0].quantity, book[1..], i - 1)
    ensures book[1..][i - 1] == book[i]
  {
    TotalTail(book, i);
  }

  /** Orders that do not cross, or come after the quantity is used up, are left alone. */
  lemma {:induction false} NothingDue(side: Side, limit: real, id: nat, qty: nat, book: seq<Order>, i: nat)
    requires i <= |book|
    requires forall k :: i <= k < |book| ==>
               book[k].quantity > 0 && (!Crosses(side, limit, book[k].price) || qty <= Total(book[..k]))
    ensures DueTrades(side, limit, id, qty, book, i) == [] && DueBook(side, limit, qty, book, i) == book[i..]
    decreases |book| - i
  {
    if i < |book| {
      NothingDue(side, limit, id, qty, book, i + 1);
      assert book[i..] == [book[i].(quantity := book[i].quantity - 0)] + book[i + 1..];
    }
  }

  lemma {:induction false} TotalGrows(book: seq<Order>, i: nat, j: nat)
    requires i <= j <= |book|
    ensures Total(book[..i]) <= Total(book[..j])
    decreases j
  {
    if i < j {
      TotalGrows(book, i, j - 1);
      assert book[..j][..j - 1] == book[..j - 1];
    }
  }

  /** Price-time priority: the greedy walk fills every resting order with exactly what it is
      due, in priority order. */
  lemma {:induction false} SweepIsDue(side: Side, limit: real, id: nat, qty: nat, book: seq<Order>)
    requires Served(Other(side), book)
    ensures var out := Sweep(side, limit, id, qty, book);
            && out.trades == DueTrades(side, limit, id, qty, book, 0)
            && out.book == DueBook(side, limit, qty, book, 0)
    decreases |book|
  {
    if qty == 0 || book == [] || !Crosses(side, limit, book[0].price) {
      NothingCrosses(side, limit, id, qty, book);
    } else {
      FirstDue(side, limit, id, qty, book);
      if qty >= book[0].quantity {
        ServedTail(Other(side), book);
        SweepIsDue(side, limit, id, qty - book[0].quantity, book[1..]);
        DueTradesShift(side, limit, id, qty, book, 1);
        DueBookShift(side, limit, qty, book, 1);
      }
    }
  }

  lemma ServedTail(side: Side, book: seq<Order>)
    requires Served(side, book) && book != []
    ensures Served(side, book[1..])
  {
  }

  lemma NothingCrosses(side: Side, limit: real, id: nat, qty: nat, book: seq<Order>)
    requires Served(Other(side), book)
    requires qty == 0 || book == [] || !Crosses(side, limit, book[0].price)
    ensures DueTrades(side, limit, id, qty, book, 0) == [] && DueBook(side, limit, qty, book, 0) == book
  {
    forall k | 0 < k < |book| ensures !Ahead(Other(side), book[k].price, book[0].price) {}
    NothingDue(side, limit, id, qty, book, 0);
    assert book[0..] == book;
  }

  /** The order at the head is due all it can take; if that uses the quantity up, nothing else
      is due. */
  lemma FirstDue(side: Side, limit: real, id: nat, qty: nat, book: seq<Order>)
    requires Served(Other(side), book) && book != [] && qty > 0 && Crosses(side, limit, book[0].price)
    ensures var due := if qty < book[0].quantity then qty else book[0].quantity;
            && DueTrades(side, limit, id, qty, book, 0)
               == [MakeTrade(side, id, book[0], due)] + DueTrades(side, limit, id, qty, book, 1)
            && DueBook(side, limit, qty, book, 0)
               == LessDue(book[0], due) + DueBook(side, limit, qty, book, 1)
    ensures qty < book[0].quantity ==>
              DueTrades(side, limit, id, qty, book, 1) == [] && DueBook(side, limit, qty, book, 1) == book[1..]
  {
    assert book[..1][..0] == [] && Total(book[..1]) == book[0].quantity;
    if qty < book[0].quantity {
      forall k | 1 <= k < |book| ensures qty <= Total(book[..k]) {
        TotalGrows(book, 1, k);
      }
      NothingDue(side, limit, id, qty, book, 1);
    }
  }

  /** The walk stops with quantity left over only when nothing remaining crosses. */
  lemma {:induction false} LeftoverCrossesNothing(side: Side, limit: real, id: nat, qty: nat, book: seq<Order>)
    requires Served(Other(side), book)
    ensures var out := Sweep(side, limit, id, qty, book);
            out.left > 0 ==> forall o :: o in out.book ==> !Crosses(side, limit, o.price)
    decreases |book|
  {
    if qty > 0 && book != [] {
      if !Crosses(side, limit, book[0].price) {
        forall o | o in book ensures !Crosses(side, limit, o.price) {
          var i :| 0 <= i < |book| && book[i] == o;
          assert i > 0 ==> !Ahead(Other(side), book[i].price, book[0].price);
        }
      } else if qty >= book[0].quantity {
        ServedTail(Other(side), book);
        LeftoverCrossesNothing(side, limit, id, qty - book[0].quantity, book[1..]);
      }
    }
  }

  /** The walk stops with quantity left over only when nothing remaining crosses, and what
      remains is a tail of the book, its first order possibly reduced. */
  lemma {:induction false} SweepLeaves(side: Side, limit: real, id: nat, qty: nat, book: seq<Order>) returns (k: nat)
    requires Served(Other(side), book)
    ensures var out := Sweep(side, limit, id, qty, book);
            && (out.left > 0 ==> forall o :: o in out.book ==> !Crosses(side, limit, o.price))
            && k <= |book|
            && (out.book == book[k..]
                || (k < |book| && out.left == 0
                    && (exists q :: 0 < q < book[k].quantity && out.book == [book[k].(quantity := q)] + book[k + 1..])))
    decreases |book|
  {
    LeftoverCrossesNothing(side, limit, id, qty, book);
    if qty == 0 || book == [] || !Crosses(side, limit, book[0].price) {
      k := 0;
    } else if qty < book[0].quantity {
      k := 0;
      var q := book[0].quantity - qty;
      assert 0 < q < book[0].quantity;
    } else {
      ServedTail(Other(side), book);
      k := SweepLeaves(side, limit, id, qty - book[0].quantity, book[1..]);
      assert book[1..][k..] == book[k + 1..];
      if k < |book[1..]| { assert book[1..][k + 1..] == book[k + 2..]; }
      k := k + 1;
    }
  }

  // ----- Conservation -----

  ghost function Resting(book: seq<Order>, id: nat): nat {
    if book == [] then 0 else (if book[0].id == id then book[0].quantity else 0) + Resting(book[1..], id)
  }

  ghost function Traded(trades: seq<Trade>, id: nat): nat {
    if trades == [] then 0
    else (if trades[0].buyId == id || trades[0].sellId == id then trades[0].quantity else 0) + Traded(trades[1..], id)
  }

  lemma {:induction false} TradedAppend(a: seq<Trade>, b: seq<Trade>, id: nat)
    ensures Traded(a + b, id) == Traded(a, id) + Traded(b, id)
  {
    if a == [] {
      assert a + b == b;
    } else {
      TradedAppend(a[1..], b, id);
      assert (a + b)[1..] == a[1..] + b;
    }
  }

  lemma {:induction false} SweepConserves(side: Side, limit: real, id: nat, qty: nat, book: seq<Order>, x: nat)
    requires forall o :: o in book ==> o.id != id
    ensures var out := Sweep(side, limit, id, qty, book);
            && (x != id ==> Resting(book, x) == Resting(out.book, x) + Traded(out.trades, x))
            && (x == id ==> Resting(book, x) == Resting(out.book, x) == 0 && qty == out.left + Traded(out.trades, x))
    decreases |book|
  {
    if book == [] {
    } else if qty == 0 || !Crosses(side, limit, book[0].price) {
      SweepConserves(side, limit, id, qty, book[1..], x);
      NoneResting(book, id);
    } else if qty < book[0].quantity {
      NoneResting(book, id);
      var t := MakeTrade(side, id, book[0], qty);
      assert Traded([t], x) == (if x == id || x == book[0].id then qty else 0) + Traded([], x);
    } else {
      var rest := Sweep(side, limit, id, qty - book[0].quantity, book[1..]);
      SweepConserves(side, limit, id, qty - book[0].quantity, book[1..], x);
      var t := MakeTrade(side, id, book[0], book[0].quantity);
      assert ([t] + rest.trades)[1..] == rest.trades;
    }
  }

  lemma {:induction false} NoneResting(book: seq<Order>, id: nat)
    requires forall o :: o in book ==> o.id != id
    ensures Resting(book, id) == 0
  {
    if book != [] { NoneResting(book[1..], id); }
  }

  lemma {:induction false} InsertOk(side: Side, book: seq<Order>, o: Order, nextId: nat, clock: nat)
    requires BookOk(side, book, nextId, clock)
    requires o.id == nextId && o.timestamp == clock && o.side == side && o.quantity > 0
    ensures BookOk(side, Insert(book, o), nextId + 1, clock + 1)
    ensures forall x :: x in Insert(book, o) <==> x in book || x == o
  {
    var book' := Insert(book, o);
    if book == [] || Ahead(o.side, o.price, book[0].price) {
      assert book'[1..] == book;
      forall i, j | 0 <= i < j < |book'| ensures Prior(side, book'[i], book'[j]) {
        assert j > 1 ==> Prior(side, book[0], book[j - 1]);
      }
    } else {
      InsertOk(side, book[1..], o, nextId, clock);
      var tail := Insert(book[1..], o);
      assert book'[1..] == tail && book == [book[0]] + book[1..];
      forall x | x in tail ensures Prior(side, book[0], x) {
        if x in book[1..] {
          var k :| 0 <= k < |book[1..]| && book[1..][k] == x;
          assert Prior(side, book[0], book[k + 1]);
        }
      }
      forall i, j | 0 <= i < j < |book'| ensures Prior(side, book'[i], book'[j]) {
        if i == 0 { assert book'[j] == tail[j - 1]; }
      }
      forall i | 0 <= i < |book'|
        ensures book'[i].side == side && book'[i].quantity > 0 && book'[i].id < nextId + 1 && book'[i].timestamp < clock + 1
      {
        if i > 0 { assert book'[i] == tail[i - 1]; }
      }
    }
  }

  // ----- Invariants over every run -----

  /** Resting an order adds its quantity to its own id. */
  lemma {:induction false} InsertRests(book: seq<Order>, o: Order, id: nat)
    ensures Resting(Insert(book, o), id) == Resting(book, id) + (if id == o.id then o.quantity else 0)
    decreases |book|
  {
    if book != [] && !Ahead(o.side, o.price, book[0].price) {
      InsertRests(book[1..], o, id);
      assert Insert(book, o)[1..] == Insert(book[1..], o);
    } else {
      assert Insert(book, o)[1..] == book;
    }
  }

  ghost predicate MarketOk(m: Market) {
    && BookOk(Buy, m.bids, m.nextId, m.clock) && BookOk(Sell, m.asks, m.nextId, m.clock)
    && (forall b, a :: b in m.bids && a in m.asks ==> b.price < a.price)
  }

  /** A book swept from the front is still a book, at prices it already had. */
  lemma SweptOk(side: Side, limit: real, id: nat, qty: nat, book: seq<Order>, nextId: nat, clock: nat)
    requires BookOk(Other(side), book, nextId, clock)
    ensures Served(Other(side), book)
    ensures var out := Sweep(side, limit, id, qty, book);
            && BookOk(Other(side), out.book, nextId, clock)
            && (forall o :: o in out.book ==> exists o' :: o' in book && o'.price == o.price)
            && (out.left > 0 ==> forall o :: o in out.book ==> !Crosses(side, limit, o.price))
  {
    forall i, j | 0 <= i < j < |book| ensures !Ahead(Other(side), book[j].price, book[i].price) {
      assert Prior(Other(side), book[i], book[j]);
    }
    var k := SweepLeaves(side, limit, id, qty, book);
    var book' := Sweep(side, limit, id, qty, book).book;
    TailOk(Other(side), book, book', k, nextId, clock);
  }

  lemma TailOk(side: Side, book: seq<Order>, book': seq<Order>, k: nat, nextId: nat, clock: nat)
    requires BookOk(side, book, nextId, clock) && k <= |book| == |book'| + k
    requires forall i :: 0 <= i < |book'| ==> book'[i].quantity > 0 && book'[i] == book[k + i].(quantity := book'[i].quantity)
    ensures BookOk(side, book', nextId, clock)
    ensures forall o :: o in book' ==> exists o' :: o' in book && o'.price == o.price
  {
    forall i, j | 0 <= i < j < |book'| ensures Prior(side, book'[i], book'[j]) {
      assert Prior(side, book[k + i], book[k + j]);
    }
    forall o | o in book' ensures exists o' :: o' in book && o'.price == o.price {
      var i :| 0 <= i < |book'| && book'[i] == o;
      assert book[k + i] in book;
    }
  }

  /** Quantity of request number id, counted from 1. */
  ghost function Requested(rs: seq<Request>, id: nat): nat {
    if 1 <= id <= |rs| then rs[id - 1].quantity else 0
  }

  ghost predicate Conserved(m: Market, rs: seq<Request>) {
    forall id {:trigger Requested(rs, id)} ::
      Requested(rs, id) == Resting(m.bids, id) + Resting(m.asks, id) + Traded(m.trades, id)
  }

  /** No order of one side crosses any of the other. */
  ghost predicate Apart(side: Side, own: seq<Order>, opp: seq<Order>) {
    forall x, y :: x in own && y in opp ==> !Crosses(side, x.price, y.price)
  }

  /** The order's own book once what is left of it rests. */
  ghost function Rested(own: seq<Order>, o: Order, left: nat): seq<Order> {
    if left > 0 then Insert(own, o.(quantity := left)) else own
  }

  /** Both books after a submission, seen from the side of the order. */
  lemma SidesKept(side: Side, own: seq<Order>, opp: seq<Order>, o: Order, nextId: nat, clock: nat)
    requires BookOk(side, own, nextId, clock) && BookOk(Other(side), opp, nextId, clock) && Apart(side, own, opp)
    requires o.id == nextId && o.timestamp == clock && o.side == side
    ensures var out := Sweep(side, o.price, o.id, o.quantity, opp);
            && BookOk(side, Rested(own, o, out.left), nextId + 1, clock + 1)
            && BookOk(Other(side), out.book, nextId + 1, clock + 1)
            && Apart(side, Rested(own, o, out.left), out.book)
  {
    var out := Sweep(side, o.price, o.id, o.quantity, opp);
    SweptOk(side, o.price, o.id, o.quantity, opp, nextId, clock);
    if out.left > 0 {
      InsertOk(side, own, o.(quantity := out.left), nextId, clock);
    }
    forall x, y | x in Rested(own, o, out.left) && y in out.book ensures !Crosses(side, x.price, y.price) {
      if x in own {
        var y' :| y' in opp && y'.price == y.price;
      } else {
        assert x.price == o.price;
      }
    }
  }

  lemma SubmitKeeps(m: Market, r: Request)
    requires MarketOk(m)
    ensures MarketOk(Submit(m, r))
  {
    var o := Order(m.nextId, r.side, r.price, r.quantity, m.clock);
    if r.side == Buy {
      SidesKept(Buy, m.bids, m.asks, o, m.nextId, m.clock);
    } else {
      SidesKept(Sell, m.asks, m.bids, o, m.nextId, m.clock);
    }
  }

  lemma SubmitConserves(m: Market, r: Request, id: nat)
    requires MarketOk(m) && Resting(m.bids, m.nextId) == Resting(m.asks, m.nextId) == Traded(m.trades, m.nextId) == 0
    ensures var m' := Submit(m, r);
            Resting(m'.bids, id) + Resting(m'.asks, id) + Traded(m'.trades, id)
            == Resting(m.bids, id) + Resting(m.asks, id) + Traded(m.trades, id)
               + (if id == m.nextId then r.quantity else 0)
  {
    var o := Order(m.nextId, r.side, r.price, r.quantity, m.clock);
    var opp, own := if r.side == Buy then m.asks else m.bids, if r.side == Buy then m.bids else m.asks;
    var out := Sweep(r.side, r.price, o.id, r.quantity, opp);
    SweepConserves(r.side, r.price, o.id, r.quantity, opp, id);
    TradedAppend(m.trades, out.trades, id);
    if out.left > 0 {
      InsertRests(own, o.(quantity := out.left), id);
    }
  }

  lemma ConservedStep(m: Market, rs: seq<Request>, r: Request)
    requires MarketOk(m) && Conserved(m, rs) && m.nextId == |rs| + 1
    ensures Conserved(Submit(m, r), rs + [r])
  {
    var m' := Submit(m, r);
    assert Requested(rs, m.nextId) == 0;
    forall id: nat
      ensures Requested(rs + [r], id) == Resting(m'.bids, id) + Resting(m'.asks, id) + Traded(m'.trades, id)
    {
      assert Requested(rs + [r], id) == Requested(rs, id) + (if id == m.nextId then r.quantity else 0);
      SubmitConserves(m, r, id);
    }
  }

  /** Over every sequence of submissions the book is uncrossed and in priority order, and every
      order's quantity is what rests plus what traded. */
  lemma {:induction false} RunInvariant(rs: seq<Request>)
    ensures MarketOk(Run(rs)) && Conserved(Run(rs), rs)
    ensures Run(rs).nextId == |rs| + 1 && Run(rs).clock == |rs|
  {
    if rs != [] {
      var before, r := rs[..|rs| - 1], rs[|rs| - 1];
      RunInvariant(before);
      SubmitKeeps(Run(before), r);
      ConservedStep(Run(before), before, r);
      assert before + [r] == rs;
    }
  }

  // ----- One submission in terms of the fields alone -----

  ghost function Volume(trades: seq<Trade>): nat {
    if trades == [] then 0 else trades[0].quantity + Volume(trades[1..])
  }

  /** A trade of request r, now order id, with the resting order o: who buys, who sells, at o's
      price, within r's limit, for no more than o has. */
  ghost predicate Fill(r: Request, id: nat, t: Trade, o: Order) {
    && t.price == o.price && 0 < t.quantity <= o.quantity
    && (r.side == Buy ==> t.buyId == id && t.sellId == o.id && t.price <= r.price)
    && (r.side == Sell ==> t.sellId == id && t.buyId == o.id && t.price >= r.price)
  }

  /** The trades are with the first orders of the book, in order, each but the last for all the
      order has. */
  ghost predicate Fills(r: Request, id: nat, trades: seq<Trade>, book: seq<Order>) {
    && |trades| <= |book|
    && (forall j :: 0 <= j < |trades| ==> Fill(r, id, trades[j], book[j]))
    && (forall j :: 0 <= j < |trades| - 1 ==> trades[j].quantity == book[j].quantity)
  }

  /** The book without what the trades took from it. */
  ghost function Remainder(book: seq<Order>, trades: seq<Trade>): seq<Order>
    requires |trades| <= |book|
  {
    if trades == [] then book
    else
      var k := |trades| - 1;
      if trades[k].quantity < book[k].quantity
      then [book[k].(quantity := book[k].quantity - trades[k].quantity)] + book[k + 1..]
      else book[k + 1..]
  }

  /** Request r, now order id, leaves the opposite book without what the added trades took; what
      they left of r rests at its own price, and only if nothing left could trade with it. */
  ghost predicate Settles(r: Request, id: nat, clock: nat, own: seq<Order>, opp: seq<Order>,
                          own': seq<Order>, opp': seq<Order>, added: seq<Trade>)
  {
    && Fills(r, id, added, opp) && opp' == Remainder(opp, added) && Volume(added) <= r.quantity
    && (Volume(added) == r.quantity ==> own' == own)
    && (Volume(added) < r.quantity ==>
          && NoneLeftFor(r, opp')
          && multiset(own') == multiset(own) + multiset{Order(id, r.side, r.price, r.quantity - Volume(added), clock)})
  }

  ghost predicate NoneLeftFor(r: Request, opp: seq<Order>) {
    forall o :: o in opp ==> if r.side == Buy then o.price > r.price else o.price < r.price
  }

  /** m' is m after request r. */
  ghost predicate Explained(m: Market, r: Request, m': Market) {
    && m'.nextId == m.nextId + 1 && m'.clock == m.clock + 1 && m.trades <= m'.trades
    && var added := m'.trades[|m.trades|..];
       match r.side
       case Buy => Settles(r, m.nextId, m.clock, m.bids, m.asks, m'.bids, m'.asks, added)
       case Sell => Settles(r, m.nextId, m.clock, m.asks, m.bids, m'.asks, m'.bids, added)
  }

  /** The walk, trade by trade. */
  lemma {:induction false} SweepFills(r: Request, id: nat, qty: nat, book: seq<Order>)
    requires forall o :: o in book ==> o.quantity > 0
    ensures var out := Sweep(r.side, r.price, id, qty, book);
            && Fills(r, id, out.trades, book) && out.book == Remainder(book, out.trades)
            && Volume(out.trades) + out.left == qty
    decreases |book|
  {
    if qty == 0 || book == [] || !Crosses(r.side, r.price, book[0].price) {
    } else if qty < book[0].quantity {
      assert book[0] in book;
      assert Volume([MakeTrade(r.side, id, book[0], qty)]) == qty;
    } else {
      assert book[0] in book;
      var first, rest := MakeTrade(r.side, id, book[0], book[0].quantity), book[1..];
      var out := Sweep(r.side, r.price, id, qty - book[0].quantity, rest);
      SweepFills(r, id, qty - book[0].quantity, rest);
      FillsPrepend(r, id, first, book[0], out.trades, rest);
      assert [book[0]] + rest == book;
    }
  }

  lemma FillsPrepend(r: Request, id: nat, t: Trade, o: Order, trades: seq<Trade>, book: seq<Order>)
    requires Fill(r, id, t, o) && t.quantity == o.quantity && Fills(r, id, trades, book)
    ensures Fills(r, id, [t] + trades, [o] + book)
    ensures Remainder([o] + book, [t] + trades) == Remainder(book, trades)
    ensures Volume([t] + trades) == t.quantity + Volume(trades)
  {
    var ts, b := [t] + trades, [o] + book;
    assert ts[1..] == trades;
    forall j | 0 <= j < |ts| ensures Fill(r, id, ts[j], b[j]) {
      assert j > 0 ==> Fill(r, id, trades[j - 1], book[j - 1]);
    }
    RemainderPrepend(t, o, trades, book);
  }

  lemma RemainderPrepend(t: Trade, o: Order, trades: seq<Trade>, book: seq<Order>)
    requires |trades| <= |book| && t.quantity == o.quantity
    ensures Remainder([o] + book, [t] + trades) == Remainder(book, trades)
  {
    var ts, b := [t] + trades, [o] + book;
    if trades == [] {
      assert b[1..] == book;
    } else {
      assert ts[|ts| - 1] == trades[|trades| - 1] && b[|ts| - 1] == book[|trades| - 1];
      assert b[|ts|..] == book[|trades|..];
    }
  }

  lemma {:induction false} InsertMembers(book: seq<Order>, o: Order)
    ensures multiset(Insert(book, o)) == multiset(book) + multiset{o}
    decreases |book|
  {
    if book != [] && !Ahead(o.side, o.price, book[0].price) {
      InsertMembers(book[1..], o);
      assert book == [book[0]] + book[1..];
    }
  }

  /** Matching and resting, seen from the side of the request. */
  lemma SideSettles(r: Request, id: nat, clock: nat, own: seq<Order>, opp: seq<Order>)
    requires BookOk(Other(r.side), opp, id, clock)
    ensures var out := Sweep(r.side, r.price, id, r.quantity, opp);
            var o := Order(id, r.side, r.price, r.quantity, clock);
            Settles(r, id, clock, own, opp, Rested(own, o, out.left), out.book, out.trades)
  {
    var out := Sweep(r.side, r.price, id, r.quantity, opp);
    SweepFills(r, id, r.quantity, opp);
    SweptOk(r.side, r.price, id, r.quantity, opp, id, clock);
    if out.left > 0 {
      InsertMembers(own, Order(id, r.side, r.price, out.left, clock));
    }
  }

  lemma SubmitExplained(m: Market, r: Request)
    requires MarketOk(m)
    ensures Explained(m, r, Submit(m, r))
  {
    var opp, own := if r.side == Buy then m.asks else m.bids, if r.side == Buy then m.bids else m.asks;
    var out := Sweep(r.side, r.price, m.nextId, r.quantity, opp);
    assert (m.trades + out.trades)[|m.trades|..] == out.trades;
    SideSettles(r, m.nextId, m.clock, own, opp);
  }

  /** Order o is what rests of its request. */
  ghost predicate RestsFor(rs: seq<Request>, side: Side, o: Order) {
    && 1 <= o.id <= |rs| && o.side == rs[o.id - 1].side == side && o.price == rs[o.id - 1].price
    && o.timestamp == o.id - 1 && 0 < o.quantity <= rs[o.id - 1].quantity
  }

  ghost predicate AllRest(rs: seq<Request>, side: Side, book: seq<Order>) {
    forall o {:trigger RestsFor(rs, side, o)} :: o in book ==> RestsFor(rs, side, o)
  }

  /** A trade between a Buy request and a Sell request, within both limits, at the price of the
      one that came first. */
  ghost predicate TradesFor(rs: seq<Request>, t: Trade) {
    && 1 <= t.buyId <= |rs| && 1 <= t.sellId <= |rs| && t.quantity > 0
    && rs[t.buyId - 1].side == Buy && rs[t.sellId - 1].side == Sell
    && rs[t.sellId - 1].price <= t.price <= rs[t.buyId - 1].price
    && t.price == rs[(if t.buyId < t.sellId then t.buyId else t.sellId) - 1].price
  }

  /** Every resting order and every trade goes back to the requests. */
  ghost predicate Traced(rs: seq<Request>, m: Market) {
    && AllRest(rs, Buy, m.bids) && AllRest(rs, Sell, m.asks)
    && (forall t {:trigger TradesFor(rs, t)} :: t in m.trades ==> TradesFor(rs, t))
  }

  /** Highest bid first, lowest ask first, each price in order of arrival, and no overlap. */
  ghost predicate InPriceTimeOrder(m: Market) {
    && (forall i, j :: 0 <= i < j < |m.bids| ==>
          m.bids[i].price > m.bids[j].price
          || (m.bids[i].price == m.bids[j].price && m.bids[i].timestamp < m.bids[j].timestamp))
    && (forall i, j :: 0 <= i < j < |m.asks| ==>
          m.asks[i].price < m.asks[j].price
          || (m.asks[i].price == m.asks[j].price && m.asks[i].timestamp < m.asks[j].timestamp))
    && (forall b, a :: b in m.bids && a in m.asks ==> b.price < a.price)
  }

  lemma BookInOrder(m: Market)
    requires MarketOk(m)
    ensures InPriceTimeOrder(m)
  {
    forall i, j | 0 <= i < j < |m.bids|
      ensures m.bids[i].price > m.bids[j].price
              || (m.bids[i].price == m.bids[j].price && m.bids[i].timestamp < m.bids[j].timestamp)
    {
      assert Prior(Buy, m.bids[i], m.bids[j]);
    }
    forall i, j | 0 <= i < j < |m.asks|
      ensures m.asks[i].price < m.asks[j].price
              || (m.asks[i].price == m.asks[j].price && m.asks[i].timestamp < m.asks[j].timestamp)
    {
      assert Prior(Sell, m.asks[i], m.asks[j]);
    }
  }

  lemma TradesTraced(rs: seq<Request>, r: Request, added: seq<Trade>, opp: seq<Order>, side: Side)
    requires side == Other(r.side) && Fills(r, |rs| + 1, added, opp)
    requires AllRest(rs, side, opp)
    ensures forall t {:trigger TradesFor(rs + [r], t)} :: t in added ==> TradesFor(rs + [r], t)
  {
    forall t | t in added ensures TradesFor(rs + [r], t) {
      var j :| 0 <= j < |added| && added[j] == t;
      assert Fill(r, |rs| + 1, t, opp[j]);
      assert opp[j] in opp && RestsFor(rs, side, opp[j]);
    }
  }

  lemma RemainderTraced(rs: seq<Request>, r: Request, added: seq<Trade>, opp: seq<Order>, side: Side)
    requires side == Other(r.side) && Fills(r, |rs| + 1, added, opp)
    requires AllRest(rs, side, opp)
    ensures AllRest(rs + [r], side, Remainder(opp, added))
  {
    var rest, k := Remainder(opp, added), |added| - 1;
    forall o | o in rest ensures RestsFor(rs + [r], side, o) {
      if o in opp {
        assert RestsFor(rs, side, o);
      } else {
        assert Fill(r, |rs| + 1, added[k], opp[k]);
        assert opp[k] in opp && RestsFor(rs, side, opp[k]);
      }
    }
  }

  lemma OwnTraced(rs: seq<Request>, r: Request, own: seq<Order>, own': seq<Order>, left: nat)
    requires AllRest(rs, r.side, own)
    requires left <= r.quantity
    requires if left == 0 then own' == own
             else multiset(own') == multiset(own) + multiset{Order(|rs| + 1, r.side, r.price, left, |rs|)}
    ensures AllRest(rs + [r], r.side, own')
  {
    forall o | o in own' ensures RestsFor(rs + [r], r.side, o) {
      assert o in multiset(own');
      if o in own { assert RestsFor(rs, r.side, o); }
    }
  }

  /** Both books after a request, traced. */
  lemma BooksTraced(rs: seq<Request>, r: Request, own: seq<Order>, opp: seq<Order>,
                    own': seq<Order>, opp': seq<Order>, added: seq<Trade>)
    requires Settles(r, |rs| + 1, |rs|, own, opp, own', opp', added)
    requires AllRest(rs, r.side, own)
    requires AllRest(rs, Other(r.side), opp)
    ensures AllRest(rs + [r], r.side, own')
    ensures AllRest(rs + [r], Other(r.side), opp')
    ensures forall t {:trigger TradesFor(rs + [r], t)} :: t in added ==> TradesFor(rs + [r], t)
  {
    TradesTraced(rs, r, added, opp, Other(r.side));
    RemainderTraced(rs, r, added, opp, Other(r.side));
    OwnTraced(rs, r, own, own', r.quantity - Volume(added));
  }

  lemma TradesKept(rs: seq<Request>, r: Request, trades: seq<Trade>, added: seq<Trade>)
    requires forall t {:trigger TradesFor(rs, t)} :: t in trades ==> TradesFor(rs, t)
    requires forall t {:trigger TradesFor(rs + [r], t)} :: t in added ==> TradesFor(rs + [r], t)
    ensures forall t {:trigger TradesFor(rs + [r], t)} :: t in trades + added ==> TradesFor(rs + [r], t)
  {
    forall t | t in trades + added ensures TradesFor(rs + [r], t) {
      if t in trades { assert TradesFor(rs, t); }
    }
  }

  lemma TracedStep(rs: seq<Request>, m: Market, r: Request, m': Market)
    requires Traced(rs, m) && Explained(m, r, m') && m.nextId == |rs| + 1 && m.clock == |rs|
    ensures Traced(rs + [r], m')
  {
    var added := m'.trades[|m.trades|..];
    if r.side == Buy {
      BooksTraced(rs, r, m.bids, m.asks, m'.bids, m'.asks, added);
    } else {
      BooksTraced(rs, r, m.asks, m.bids, m'.asks, m'.bids, added);
    }
    TradesKept(rs, r, m.trades, added);
    assert m'.trades == m.trades + added;
  }

  lemma NextRun(rs: seq<Request>, r: Request)
    ensures Run(rs + [r]) == Submit(Run(rs), r) && Explained(Run(rs), r, Run(rs + [r]))
    ensures Run(rs).nextId == |rs| + 1
  {
    RunInvariant(rs);
    assert (rs + [r])[..|rs|] == rs;
    SubmitExplained(Run(rs), r);
  }

  lemma TracedRun(rs: seq<Request>, r: Request)
    ensures Traced(rs, Run(rs)) ==> Traced(rs + [r], Run(rs + [r]))
  {
    if Traced(rs, Run(rs)) {
      RunInvariant(rs);
      NextRun(rs, r);
      TracedStep(rs, Run(rs), r, Run(rs + [r]));
    }
  }

  /** Over every sequence of submissions, by the requests and the fields alone: who traded with
      whom and at what price, and what rests for whom. */
  lemma {:induction false} RunTraced(rs: seq<Request>)
    ensures Traced(rs, Run(rs))
  {
    if rs != [] {
      RunTraced(rs[..|rs| - 1]);
      TracedRun(rs[..|rs| - 1], rs[|rs| - 1]);
      assert rs[..|rs| - 1] + [rs[|rs| - 1]] == rs;
    }
  }

  /** And in which order it rests. */
  lemma RunInOrder(rs: seq<Request>)
    ensures InPriceTimeOrder(Run(rs))
  {
    RunInvariant(rs);
    BookInOrder(Run(rs));
  }

  // ----- The engine -----

  /** push_back into the level of o's price, creating the level in its place if missing. */
  function AddToLevel(levels: seq<Level>, o: Order): seq<Level> {
    if levels == [] || Ahead(o.side, o.price, levels[0].price) then [Level(o.price, [o])] + levels
    else if levels[0].price == o.price then [Level(o.price, levels[0].orders + [o])] + levels[1..]
    else [levels[0]] + AddToLevel(levels[1..], o)
  }

  lemma {:induction false} InsertSkips(a: seq<Order>, b: seq<Order>, o: Order)
    requires forall x :: x in a ==> !Ahead(o.side, o.price, x.price)
    ensures Insert(a + b, o) == a + Insert(b, o)
  {
    if a == [] {
      assert a + b == b;
    } else {
      InsertSkips(a[1..], b, o);
      assert (a + b)[1..] == a[1..] + b;
      assert a == [a[0]] + a[1..];
    }
  }

  lemma LevelMembers(side: Side, level: Level)
    requires LevelOk(side, level)
    ensures level.orders != [] && forall o :: o in level.orders ==> RestsAt(side, level.price, o)
  {
  }

  lemma {:induction false} AddToLevelOk(levels: seq<Level>, o: Order)
    requires LevelsOk(o.side, levels) && o.quantity > 0
    ensures LevelsOk(o.side, AddToLevel(levels, o))
    ensures forall l :: l in AddToLevel(levels, o) ==> l.price == o.price || l in levels
  {
    var levels' := AddToLevel(levels, o);
    if levels == [] || Ahead(o.side, o.price, levels[0].price) {
      assert levels'[1..] == levels;
      assert RestsAt(o.side, o.price, o);
      forall i | 0 <= i < |levels'| ensures LevelOk(o.side, levels'[i]) {
        assert i > 0 ==> LevelOk(o.side, levels[i - 1]);
      }
      forall i, j | 0 <= i < j < |levels'| ensures Ahead(o.side, levels'[i].price, levels'[j].price) {
        assert j > 1 ==> Ahead(o.side, levels[0].price, levels[j - 1].price);
        assert i > 0 ==> Ahead(o.side, levels[i - 1].price, levels[j - 1].price);
      }
    } else if levels[0].price == o.price {
      assert LevelOk(o.side, levels[0]);
      assert RestsAt(o.side, o.price, o);
      forall x | x in levels'[0].orders ensures RestsAt(o.side, o.price, x) {
        assert x in levels[0].orders ==> RestsAt(o.side, o.price, x);
      }
      forall i | 0 <= i < |levels'| ensures LevelOk(o.side, levels'[i]) {
        assert i > 0 ==> LevelOk(o.side, levels[i]);
      }
      forall i, j | 0 <= i < j < |levels'| ensures Ahead(o.side, levels'[i].price, levels'[j].price) {
        assert Ahead(o.side, levels[i].price, levels[j].price);
      }
    } else {
      var tail := AddToLevel(levels[1..], o);
      assert LevelOk(o.side, levels[0]);
      TailLevels(o.side, levels);
      AddToLevelOk(levels[1..], o);
      forall i | 0 <= i < |levels'| ensures LevelOk(o.side, levels'[i]) {
        assert i > 0 ==> levels'[i] == tail[i - 1] && LevelOk(o.side, tail[i - 1]);
      }
      forall i, j | 0 <= i < j < |levels'| ensures Ahead(o.side, levels'[i].price, levels'[j].price) {
        assert levels'[j] == tail[j - 1] && tail[j - 1] in tail;
        if i > 0 {
          assert Ahead(o.side, tail[i - 1].price, tail[j - 1].price);
        } else if tail[j - 1].price != o.price {
          var k :| 0 <= k < |levels[1..]| && levels[1..][k] == tail[j - 1];
          assert Ahead(o.side, levels[0].price, levels[k + 1].price);
        }
      }
    }
  }

  lemma TailLevels(side: Side, levels: seq<Level>)
    requires LevelsOk(side, levels) && levels != []
    ensures LevelsOk(side, levels[1..])
  {
    var tail := levels[1..];
    forall i | 0 <= i < |tail| ensures LevelOk(side, tail[i]) {
      assert LevelOk(side, levels[i + 1]);
    }
    forall i, j | 0 <= i < j < |tail| ensures Ahead(side, tail[i].price, tail[j].price) {
      assert Ahead(side, levels[i + 1].price, levels[j + 1].price);
    }
  }

  /** The first order of a flat book is the first of its first level. */
  lemma FrontOrder(side: Side, levels: seq<Level>)
    requires levels != [] && LevelsOk(side, levels)
    ensures levels[0].orders != [] && forall o :: o in levels[0].orders ==> RestsAt(side, levels[0].price, o)
    ensures Flat(levels) != [] && Flat(levels)[0] == levels[0].orders[0]
    ensures RestsAt(side, levels[0].price, levels[0].orders[0])
  {
    assert LevelOk(side, levels[0]);
    LevelMembers(side, levels[0]);
  }

  lemma {:induction false} AddToLevelFlat(levels: seq<Level>, o: Order)
    requires LevelsOk(o.side, levels)
    ensures Flat(AddToLevel(levels, o)) == Insert(Flat(levels), o)
  {
    var levels' := AddToLevel(levels, o);
    if levels != [] { FrontOrder(o.side, levels); }
    if levels == [] || Ahead(o.side, o.price, levels[0].price) {
      assert levels'[1..] == levels;
    } else {
      var rest := levels[1..];
      TailLevels(o.side, levels);
      InsertSkips(levels[0].orders, Flat(rest), o);
      if levels[0].price == o.price {
        assert levels'[1..] == rest;
        if rest != [] {
          FrontOrder(o.side, rest);
          assert Ahead(o.side, levels[0].price, levels[1].price);
        }
        assert Insert(Flat(rest), o) == [o] + Flat(rest);
        assert levels[0].orders + [o] + Flat(rest) == levels[0].orders + ([o] + Flat(rest));
      } else {
        assert levels'[1..] == AddToLevel(rest, o);
        AddToLevelFlat(rest, o);
      }
    }
  }

  /** The flat book after the front order gave up fill. */
  ghost function Filled(book: seq<Order>, fill: nat): seq<Order>
    requires book != [] && fill <= book[0].quantity
  {
    if fill == book[0].quantity then book[1..]
    else [book[0].(quantity := book[0].quantity - fill)] + book[1..]
  }

  /** The levels after the same change: a spent order leaves its level, an empty level leaves
      the book. */
  ghost function FilledLevels(levels: seq<Level>, fill: nat): seq<Level>
    requires levels != [] && levels[0].orders != [] && fill <= levels[0].orders[0].quantity
  {
    var orders := Filled(levels[0].orders, fill);
    if orders == [] then levels[1..] else levels[0 := levels[0].(orders := orders)]
  }

  /** Replacing the first level's orders, at the same price, keeps the levels in order. */
  lemma ReplaceFirst(side: Side, levels: seq<Level>, level: Level)
    requires levels != [] && LevelsOk(side, levels) && LevelOk(side, level) && level.price == levels[0].price
    ensures LevelsOk(side, levels[0 := level])
  {
    var levels' := levels[0 := level];
    forall i | 0 <= i < |levels'| ensures LevelOk(side, levels'[i]) {
      assert LevelOk(side, levels[i]);
    }
    forall i, j | 0 <= i < j < |levels'| ensures Ahead(side, levels'[i].price, levels'[j].price) {
      assert Ahead(side, levels[i].price, levels[j].price);
    }
  }

  lemma FilledPrefix(a: seq<Order>, b: seq<Order>, fill: nat)
    requires a != [] && fill <= a[0].quantity
    ensures Filled(a + b, fill) == Filled(a, fill) + b
  {
    assert (a + b)[1..] == a[1..] + b;
    if fill < a[0].quantity {
      var first := [a[0].(quantity := a[0].quantity - fill)];
      assert first + (a[1..] + b) == first + a[1..] + b;
    }
  }

  lemma FlatStep(level: Level, rest: seq<Level>)
    ensures Flat([level] + rest) == level.orders + Flat(rest)
  {
    assert ([level] + rest)[1..] == rest;
  }

  lemma FillFlat(levels: seq<Level>, fill: nat)
    requires levels != [] && levels[0].orders != [] && fill <= levels[0].orders[0].quantity
    ensures Flat(levels) != [] && Flat(levels)[0] == levels[0].orders[0]
    ensures Flat(FilledLevels(levels, fill)) == Filled(Flat(levels), fill)
  {
    var level, rest := levels[0], levels[1..];
    var orders := Filled(level.orders, fill);
    FilledPrefix(level.orders, Flat(rest), fill);
    if orders == [] {
      assert orders + Flat(rest) == Flat(rest);
    } else {
      assert levels[0 := level.(orders := orders)] == [level.(orders := orders)] + rest;
      FlatStep(level.(orders := orders), rest);
    }
  }

  lemma FillFront(side: Side, levels: seq<Level>, fill: nat)
    requires levels != [] && LevelsOk(side, levels)
    requires levels[0].orders != [] && fill <= levels[0].orders[0].quantity
    ensures LevelsOk(side, FilledLevels(levels, fill))
    ensures Flat(levels) != [] && Flat(levels)[0] == levels[0].orders[0]
    ensures Flat(FilledLevels(levels, fill)) == Filled(Flat(levels), fill)
  {
    FillFlat(levels, fill);
    FrontOrder(side, levels);
    var level := levels[0];
    var orders := Filled(level.orders, fill);
    if orders == [] {
      TailLevels(side, levels);
    } else {
      forall o | o in orders ensures RestsAt(side, level.price, o) {
        assert o in level.orders || o == level.orders[0].(quantity := level.orders[0].quantity - fill);
      }
      ReplaceFirst(side, levels, level.(orders := orders));
    }
  }

  /** out is what an order's walk yields, given the trades done so far and the rest of its walk. */
  ghost predicate Progress(out: Outcome, done: seq<Trade>, o: Order, book: seq<Order>) {
    var rest := Sweep(o.side, o.price, o.id, o.quantity, book);
    out == Outcome(done + rest.trades, rest.left, rest.book)
  }

  /** One round of the matching loop is one step of the walk. */
  lemma SweepStep(out: Outcome, done: seq<Trade>, o: Order, book: seq<Order>, fill: nat)
    requires Progress(out, done, o, book)
    requires o.quantity > 0 && book != [] && Crosses(o.side, o.price, book[0].price) && book[0].quantity > 0
    requires fill == if o.quantity < book[0].quantity then o.quantity else book[0].quantity
    ensures Progress(out, done + [MakeTrade(o.side, o.id, book[0], fill)],
                     o.(quantity := o.quantity - fill), Filled(book, fill))
    ensures fill > 0
  {
    var rest := Sweep(o.side, o.price, o.id, o.quantity - fill, Filled(book, fill));
    var t := MakeTrade(o.side, o.id, book[0], fill);
    assert done + ([t] + rest.trades) == done + [t] + rest.trades;
  }

  lemma SweepEnds(out: Outcome, done: seq<Trade>, o: Order, side: Side, levels: seq<Level>)
    requires LevelsOk(side, levels) && Progress(out, done, o, Flat(levels))
    requires o.quantity == 0 || levels == [] || !Crosses(o.side, o.price, levels[0].price)
    ensures out == Outcome(done, o.quantity, Flat(levels))
  {
    if levels != [] { FrontOrder(side, levels); }
    assert done + [] == done;
  }

  /** Take fill out of the front order; a spent order leaves its level, an empty level leaves
      the book. */
  method TakeFill(levels: seq<Level>, fill: nat) returns (levels': seq<Level>)
    requires levels != [] && levels[0].orders != [] && fill <= levels[0].orders[0].quantity
    ensures levels' == FilledLevels(levels, fill)
  {
    var best := levels[0];
    var resting := best.orders[0];
    resting := resting.(quantity := resting.quantity - fill);
    best := best.(orders := best.orders[0 := resting]);
    assert best.orders == [resting] + levels[0].orders[1..];
    levels' := levels[0 := best];
    if resting.quantity == 0 {
      best := best.(orders := best.orders[1..]);
      levels' := if best.orders == [] then levels'[1..] else levels'[0 := best];
    }
  }

  /** Rest what is left of an order in its own book. */
  method RestResidue(levels: seq<Level>, order: Order) returns (levels': seq<Level>)
    requires LevelsOk(order.side, levels)
    ensures LevelsOk(order.side, levels')
    ensures Flat(levels') == if order.quantity > 0 then Insert(Flat(levels), order) else Flat(levels)
  {
    levels' := levels;
    if order.quantity > 0 {
      AddToLevelOk(levels, order);
      AddToLevelFlat(levels, order);
      levels' := AddToLevel(levels, order);
    }
  }

  class MatchingEngine {
    var bids: seq<Level>
    var asks: seq<Level>
    var trades: seq<Trade>
    var nextOrderId: nat
    var timestamp: nat
    ghost var requests: seq<Request>

    ghost predicate LevelsValid()
      reads this
    {
      LevelsOk(Buy, bids) && LevelsOk(Sell, asks)
    }

    /** The engine is where the requests so far have taken it. */
    ghost predicate Valid()
      reads this
    {
      LevelsValid() && Abs() == Run(requests)
    }

    ghost function Abs(): Market
      reads this
    {
      Market(Flat(bids), Flat(asks), trades, nextOrderId, timestamp)
    }

    constructor ()
      ensures Valid() && Abs() == EMPTY && requests == []
    {
      bids, asks, trades, requests := [], [], [], [];
      nextOrderId, timestamp := 1, 0;
    }

    method SubmitOrder(side: Side, price: real, qty: nat) returns (id: nat)
      requires Valid()
      modifies this
      ensures Valid() && requests == old(requests) + [Request(side, price, qty)]
      ensures Abs() == Submit(old(Abs()), Request(side, price, qty))
      ensures Explained(Run(old(requests)), Request(side, price, qty), Run(requests))
      ensures id == old(nextOrderId) == |requests|
    {
      NextRun(requests, Request(side, price, qty));
      requests := requests + [Request(side, price, qty)];
      var order := Order(nextOrderId, side, price, qty, timestamp);
      nextOrderId := nextOrderId + 1;
      timestamp := timestamp + 1;
      Enter(order);
      return order.id;
    }

    method Enter(order: Order)
      requires LevelsValid()
      modifies `bids, `asks, `trades
      ensures LevelsValid() && Abs() == Match(old(Abs()), order)
    {
      if order.side == Buy {
        MatchBuy(order);
      } else {
        MatchSell(order);
      }
    }

    method MatchBuy(incoming: Order)
      requires LevelsValid() && incoming.side == Buy
      modifies `bids, `asks, `trades
      ensures LevelsValid() && Abs() == Match(old(Abs()), incoming)
    {
      var order, levels, done := FillFromAsks(incoming, asks);
      asks := levels;
      trades := trades + done;
      bids := RestResidue(bids, order);
    }

    /** The matching loop of MatchBuy: what remains of the order and of the asks, and the trades. */
    static method FillFromAsks(incoming: Order, asks: seq<Level>)
      returns (order: Order, levels: seq<Level>, done: seq<Trade>)
      requires LevelsOk(Sell, asks) && incoming.side == Buy
      ensures LevelsOk(Sell, levels) && order == incoming.(quantity := order.quantity)
      ensures Sweep(Buy, incoming.price, incoming.id, incoming.quantity, Flat(asks))
           == Outcome(done, order.quantity, Flat(levels))
    {
      order, levels, done := incoming, asks, [];
      ghost var out := Sweep(Buy, order.price, order.id, order.quantity, Flat(asks));
      while order.quantity > 0 && |levels| > 0
        invariant LevelsOk(Sell, levels)
        invariant order == incoming.(quantity := order.quantity)
        invariant Progress(out, done, order, Flat(levels))
        decreases order.quantity
      {
        var best := levels[0];
        FrontOrder(Sell, levels);
        if order.price < best.price { break; }
        var resting := best.orders[0];
        var fill := if order.quantity < resting.quantity then order.quantity else resting.quantity;
        FillFront(Sell, levels, fill);
        SweepStep(out, done, order, Flat(levels), fill);
        done := done + [Trade(order.id, resting.id, resting.price, fill)];
        order := order.(quantity := order.quantity - fill);
        levels := TakeFill(levels, fill);
      }
      SweepEnds(out, done, order, Sell, levels);
    }

    method MatchSell(incoming: Order)
      requires LevelsValid() && incoming.side == Sell
      modifies `asks, `bids, `trades
      ensures LevelsValid() && Abs() == Match(old(Abs()), incoming)
    {
      var order, levels, done := FillFromBids(incoming, bids);
      bids := levels;
      trades := trades + done;
      asks := RestResidue(asks, order);
    }

    /** The matching loop of MatchSell: what remains of the order and of the bids, and the trades. */
    static method FillFromBids(incoming: Order, bids: seq<Level>)
      returns (order: Order, levels: seq<Level>, done: seq<Trade>)
      requires LevelsOk(Buy, bids) && incoming.side == Sell
      ensures LevelsOk(Buy, levels) && order == incoming.(quantity := order.quantity)
      ensures Sweep(Sell, incoming.price, incoming.id, incoming.quantity, Flat(bids))
           == Outcome(done, order.quantity, Flat(levels))
    {
      order, levels, done := incoming, bids, [];
      ghost var out := Sweep(Sell, order.price, order.id, order.quantity, Flat(bids));
      while order.quantity > 0 && |levels| > 0
        invariant LevelsOk(Buy, levels)
        invariant order == incoming.(quantity := order.quantity)
        invariant Progress(out, done, order, Flat(levels))
        decreases order.quantity
      {
        var best := levels[0];
        FrontOrder(Buy, levels);
        if order.price > best.price { break; }
        var resting := best.orders[0];
        var fill := if order.quantity < resting.quantity then order.quantity else resting.quantity;
        FillFront(Buy, levels, fill);
        SweepStep(out, done, order, Flat(levels), fill);
        done := done + [Trade(resting.id, order.id, resting.price, fill)];
        order := order.(quantity := order.quantity - fill);
        levels := TakeFill(levels, fill);
      }
      SweepEnds(out, done, order, Buy, levels);
    }
  }
}
