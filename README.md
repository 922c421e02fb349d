# DeskBooker core in Dafny

A model of the desk booker's request processor, `DeskBookingRequestProcessor.BookDesk`.
Given a request for a desk on a date, it does the following:

- It rejects a missing request with `ArgumentNullException("request")`.
- It asks the desk inventory for the desks available on the request's date.
- If some desk is available, it saves one booking for the first desk and reports `Success` with the booking's id.
- Otherwise it saves nothing and reports `NoDeskAvailable`.

Modules, one per component:

- `Wrappers`: `Option` (C# `null` and `int?`) and `Result` (a value or a thrown exception).
- `Domain`: the request, booking, result and desk records, and the predicates saying that a record carries a request's person and date.
- `Inventory`: the desk inventory (`IDeskRepository`). It is a class whose availability is an arbitrary function from date to a sequence of desks. A ghost log records every date asked about.
- `BookingStore`: the booking store (`IDeskBookingRepository`). It is a class holding the saved bookings and the next id to assign. `Save` appends the booking and gives it a fresh id. Its invariant is that ids are positive and strictly increasing.
- `Processor`: `Create<T>` as `CreateBooking` and `CreateResult`. `Book` is the outcome of one request, as a function of the request, the available desks and the store. The class `DeskBookingRequestProcessor` has the method `BookDesk`, which works field by field like the C# code and is proved to agree with `Book`.
- `Sessions`: successive `BookDesk` calls against one store. It proves that saves and `Success` results correspond one to one.
- `ProcessorTests`: the unit-test scenarios replayed against the model.

## Model

| member | source | states |
|---|---|---|
| Processor.CreateBooking | DeskBooker.Core/Processor/DeskBookingRequestProcessor.cs:47-56 | the new booking carries the request's FirstName, LastName, Email and Date; DeskId and Id are still the int default 0 |
| Processor.CreateResult | DeskBooker.Core/Processor/DeskBookingRequestProcessor.cs:47-56 | the new result carries the request's FirstName, LastName, Email and Date; DeskBookingId is still null |
| Processor.Book | DeskBooker.Core/Processor/DeskBookingRequestProcessor.cs:26-44 | the result carries the request's four fields; Code is Success iff some desk is available. With no desk: NoDeskAvailable, no id, store unchanged. With a desk: exactly one booking is appended and existing bookings are untouched. That booking copies the request's fields, has DeskId = the FIRST available desk's id, and its id is the result's DeskBookingId. The store invariant is kept. No other stored booking has that id; this holds because of the model's counter store, since the source only reports whatever id Save assigns |
| Processor.DeskBookingRequestProcessor.constructor | DeskBooker.Core/Processor/DeskBookingRequestProcessor.cs:13-17 | the processor keeps the booking store and the desk inventory it is given |
| Processor.DeskBookingRequestProcessor.BookDesk | DeskBooker.Core/Processor/DeskBookingRequestProcessor.cs:19-45 | a null request yields ArgumentNullException with parameter name "request", and neither the inventory nor the store is touched. Otherwise the inventory is queried exactly once, for request.Date. The returned result and the new store are those `Book` gives for that date's desks and the old store. The store invariant is kept |
| Inventory.DeskRepository.GetAvailableDesks | DeskBooker.Core/Interfaces/IDeskRepository.cs:9 | returns the desks the inventory holds for the given date and records that date as queried |
| BookingStore.SaveBooking | DeskBooker.Core.Tests/Processor/DeskBookingRequestProcessorTests.cs:130-134 | saving appends the booking, changed only in its Id. The assigned id differs from every id already stored, and the store invariant (positive, strictly increasing ids) is kept |
| BookingStore.DeskBookingRepository.Save | DeskBooker.Core/Processor/DeskBookingRequestProcessor.cs:35 | the store's new contents and the booking returned with its assigned id are those of `SaveBooking`; the invariant is kept |
| Sessions.Replay | DeskBooker.Core/Processor/DeskBookingRequestProcessor.cs:19-45 | over successive requests: one result per request, each carrying its request's fields. Each result has Code Success iff a desk was available for that call. Earlier bookings are never changed or removed, and the store invariant is kept |
| Sessions.ReplaySavesOncePerSuccess | DeskBooker.Core/Processor/DeskBookingRequestProcessor.cs:29-42 | the bookings added by a run of requests correspond one to one, in order, to the Success results. Each such result carries its booking's id and its person and date |
| Sessions.ReplayGrowsByOnePerSuccess | DeskBooker.Core.Tests/Processor/DeskBookingRequestProcessorTests.cs:77 | the store grows by exactly the number of Success results (Save once per success, never otherwise) |
| ProcessorTests.RunOnce | DeskBooker.Core.Tests/Processor/DeskBookingRequestProcessorTests.cs:19-36 | on a fresh processor whose inventory answers for one date: a null request leaves the store empty and makes no query. Any other request is queried once for its date, with result and bookings as `Book` gives |
| ProcessorTests.BookingWithDeskFree | DeskBooker.Core.Tests/Processor/DeskBookingRequestProcessorTests.cs:38-85 | with desks 7 and 9 free, the result carries the request's values and Code Success. Exactly one booking is saved; it carries the request's values and desk 7. The result's DeskBookingId is that booking's id. That id is non-zero because of the model's counter store; the tests only check that the id Save assigns is reported |
| ProcessorTests.BookingWithNoDeskFree | DeskBooker.Core.Tests/Processor/DeskBookingRequestProcessorTests.cs:87-142 | with no desk free, nothing is saved, Code is NoDeskAvailable and DeskBookingId is null |
| ProcessorTests.BookingWithNullRequest | DeskBooker.Core.Tests/Processor/DeskBookingRequestProcessorTests.cs:52-58 | a null request is ArgumentNullException("request") and nothing is saved |

## Left out

- The implementations of `IDeskRepository` and `IDeskBookingRepository`, and any persistence behind them. Availability is an arbitrary function of the date. The store is an append-only sequence with a counter that assigns ids from 1. The real store's id scheme is not known beyond "Save assigns an id".
- `DateTime` semantics: a date is an opaque value (`Date(ticks)`) compared only for equality.
- `IEnumerable` laziness and the two enumerations by `Count()` and `First()`. The available desks are a finite sequence, and `Count() > 0` is `|desks| > 0`.
- The generic `Create<T>` with its `new()` constraint. It becomes two functions, `CreateBooking` and `CreateResult`, that copy the same four fields.
- In-place mutation of the booking and result objects. `DeskBooking` and `DeskBookingResult` are values, updated field by field with `.(field := ...)`. In the source, the store writes the assigned `Id` into the booking object, and the processor then reads it from that same object (DeskBooker.Core/Processor/DeskBookingRequestProcessor.cs:36). The model's `Save` returns the saved booking instead, which gives the same id. `BookDesk` does not touch the booking after `Save`, so a reference the store keeps sees no later change.
- The initial `Code` of a new result is C#'s default for the enum. The enum's declaration is not part of this model, so `DefaultCode` is taken as `Success`. Both branches of `BookDesk` overwrite it, so the choice is never observed.
- The exceptions the source raises when the inventory misbehaves: `Count()` on a null sequence (line 29) and `Id` of a null desk (line 33). The inventory is assumed to return a non-null, finite sequence of non-null desks.
- 32-bit overflow of ids: ids are unbounded integers.
- The Moq mocks and the xUnit harness. The scenarios in `ProcessorTests` restate what the tests assert, over the model's own store and inventory.
- `Sessions.Replay`: each call carries the desks the inventory yielded at that moment. The model does not say how availability depends on earlier bookings, since the inventory's implementation is not shown.
