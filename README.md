# Room session manager of the spy game, in Dafny

This project models the server-side room session manager of a multiplayer
"find the spy" party game (`src/server/game-logic.ts`). The server keeps a
process-wide map from room code to room (`salas`). Its static operations
create a room (`criarSala`), join one (`entrarSala`), leave one with host
failover (`sairSala`), deal a round (`iniciarJogo`, and `reiniciarJogo` to
deal again), reveal one's own card (`revelarCarta`), look rooms and players
up (`obterSala`, `obterJogadorPorSocket`) and sweep rooms older than
24 hours (`limparSalasAntigas`). Every failure is a `null` result and leaves
the store as it was.

Layout:

- `wrappers.dfy`, module `Wrappers`: `Option`, the model of a `null` result.
- `types.dfy`, module `Types`: the player (`Jogador`) and room (`Sala`)
  records, with the fields `game-logic.ts` reads and writes, and the room
  status (`Aguardando`, `EmJogo`, `Finalizada`).
- `game_rules.dfy`, module `GameRules`: the pure part. It holds the constants
  (15 players, 3 to deal, 24 hours, the cards `""` and `"espiao"`), the
  searches (`some`, `find`, `findIndex`), the room invariant `SalaValida`,
  and the value-level changes a room goes through. It also holds the lemmas
  proving that each change keeps the invariant.
- `game_logic.dfy`, module `GameLogic`: class `Store`. Its field
  `salas: map<string, Sala>` is the room map. Each method is one operation
  of the server and changes the map as the source does: set, delete, or
  write back a changed room. Each method's contract states the new map and
  the result outright, including every refusal, and keeps `Valid()`. That
  invariant says every stored room satisfies `SalaValida` and is stored
  under its own code.
- `scenario.dfy`, module `Scenario`: a client that plays one short game
  using only the store's contracts and the lemmas about the functions they
  are stated in.

The room invariant `SalaValida` holds for every stored room. It says:

- at most 15 players and at least one;
- exactly one host;
- names distinct under case-insensitive comparison;
- while waiting, no cards and no location or spy recorded;
- during a round, every card is either the spy card or the location, at
  most one card is the spy card, and a spy card belongs to the player whose
  id is the recorded spy (these two hold unless the location itself is
  named "espiao").

"Exactly one spy, and it is the recorded one" holds right after a deal
(`UmEspiao`). A later leave can remove the spy, so the invariant keeps only
"at most one". `SaidaDoEspiao` shows the spy's leave: the round stays in
play with no spy card left.

Some behaviour of `game-logic.ts` is easy to overlook. The model keeps it:

- `revelarCarta` (src/server/game-logic.ts:214-231) has no status check. A
  player can reveal the empty card of a waiting room
  (`RevelarAntesDoJogo`). So the invariant says nothing about
  `cartaRevelada` while waiting.
- `entrarSala` (lines 72-85) does not refuse a connection that is already
  in the room. A second leave with the same connection therefore finds
  nobody only when the connection was in the room once
  (`SaidaIdempotente`). `SaidaComSocketRepetido` shows the other case.
- Room codes are map keys used exactly as given (lines 32 and 42). No
  case folding happens on the server.
- `criarSala` (line 32) replaces any room already stored under the code.
  `entrarSala` only calls it for an unknown code (lines 45-46).
- `iniciarJogo` refuses a room that is not waiting (line 136).
  `reiniciarJogo` (lines 162-181) has no status check, so it also deals in
  a waiting room.

Inputs the source takes from its environment are parameters:

- `Math.random()` is a real `rnd` with `0 <= rnd < 1`. Each index is
  `Floor(rnd * n)`, as the source computes it (`IndiceAleatorio`).
- The ids `gerarId` produces are a given string `novoId`.
- `new Date()` is an integer `agora`, in milliseconds.
- The location catalogue `GAME_LOCATIONS` is a non-empty `seq<string>`
  parameter `locais`.

## Model

| member | source | states |
|---|---|---|
| `GameRules.Lower` | src/server/game-logic.ts:66 | the lower-cased name has the same length; each letter A-Z becomes its lower-case letter (code point + 32), no A-Z is left, and every other character is unchanged |
| `GameRules.MesmoNome` | src/server/game-logic.ts:66 | equal names match; two names match exactly when they have the same length and agree letter by letter after lower-casing |
| `GameRules.NomeExiste` | src/server/game-logic.ts:64-67 | true exactly when some player's name equals the given name after lower-casing both |
| `GameRules.IndiceDoSocket` | src/server/game-logic.ts:97-100 | the index of the first player with that connection id; None exactly when no player has it |
| `GameRules.HostComSocket` | src/server/game-logic.ts:127-130 | a player that has the connection id and is host; None exactly when no player is both |
| `GameRules.NovaSala` | src/server/game-logic.ts:13-30 | the new room holds only its host, is waiting, has capacity 15 and creation time `agora`, and satisfies the room invariant |
| `GameRules.ComJogador` | src/server/game-logic.ts:82 | the player is appended at the end; the earlier players and every other room field are unchanged |
| `GameRules.EntradaRecusada` | src/server/game-logic.ts:55-70 | a join is refused exactly when the room is not waiting, is full, or has a player whose lower-cased name equals the new one |
| `GameRules.EntradaPreserva` | src/server/game-logic.ts:54-85 | a join that passes the status, capacity and name checks keeps the room valid: still at most 15 players, one host, distinct names |
| `GameRules.Remove` | src/server/game-logic.ts:105 | splice removes exactly the player at `i`; the players before it stay put and those after move up one place |
| `GameRules.AposSaida` | src/server/game-logic.ts:105-116 | a leave removes one player, and the new first player is host exactly when the leaver or that player was host |
| `GameRules.AposSaidaOrdem` | src/server/game-logic.ts:104-116 | after a leave the others keep their order and their fields, except that the new first player becomes host if the leaver was host; a non-host leave leaves the new first player exactly as it was |
| `GameRules.SaidaUmHost` | src/server/game-logic.ts:113-116 | a non-empty room keeps exactly one host after a leave, whether or not the host left |
| `GameRules.SaidaNomes` | src/server/game-logic.ts:105 | a leave keeps the remaining names distinct |
| `GameRules.SaidaEspioes` | src/server/game-logic.ts:105 | a leave never adds a spy card |
| `GameRules.SaidaPreserva` | src/server/game-logic.ts:104-118 | a leave from a room of two or more keeps the room valid |
| `GameRules.SaidaDoEspiao` | src/server/game-logic.ts:104-118 | when the spy leaves right after the deal, the room stays in play and no remaining player holds the spy card |
| `GameRules.SaidaIdempotente` | src/server/game-logic.ts:97-102 | if the connection was in the room once, a second leave with it finds no player |
| `GameRules.SaidaComSocketRepetido` | src/server/game-logic.ts:72-82 | a connection that joined twice is still found after its first leave |
| `GameRules.IndiceAleatorio` | src/server/game-logic.ts:139-143 | floor(rnd * n) with 0 <= rnd < 1 is a valid index below n |
| `GameRules.IndiceAleatorioSobrejetivo` | src/server/game-logic.ts:143 | every index i < n is drawn by some random value (i / n), so any player can be the spy and any location chosen |
| `GameRules.PodeDistribuir` | src/server/game-logic.ts:127-133 | a deal may go ahead exactly when some player has the caller's connection and is host and there are at least 3 players |
| `GameRules.Distribuir` | src/server/game-logic.ts:147-151 | the player at `k` gets "espiao", every other player the location, all face down; ids, names, host flags and connections unchanged |
| `GameRules.Rodada` | src/server/game-logic.ts:153-156 | after a deal the room is in play, records the location and the id of player `k` as spy, and keeps its code, capacity and creation time |
| `GameRules.UmEspiao` | src/server/game-logic.ts:143-155 | after a deal exactly one player holds the spy card: that player is the one at `k`, whose id is the recorded spy (when the location is not named "espiao") |
| `GameRules.RodadaPreserva` | src/server/game-logic.ts:146-156 | a deal keeps the room valid |
| `GameRules.Revelar` | src/server/game-logic.ts:227 | only the player at `i` changes, and only its `cartaRevelada`, which becomes true; the other players and room fields are unchanged |
| `GameRules.RevelarPreserva` | src/server/game-logic.ts:226-229 | revealing keeps the room valid |
| `GameRules.RevelarAntesDoJogo` | src/server/game-logic.ts:214-227 | a player of a waiting room can reveal the empty card; the status stays waiting |
| `GameRules.ExpiradaSoPelaCriacao` | src/server/game-logic.ts:252-263 | staleness depends only on the creation time, and a stale room stays stale later |
| `GameRules.SalasAtivas` | src/server/game-logic.ts:256-263 | a room survives the sweep exactly when at most 24 hours passed since its creation, and a survivor is unchanged; valid maps stay valid |
| `GameRules.SalasAtivasMonotona` | src/server/game-logic.ts:252-263 | a later sweep keeps a subset of what an earlier one keeps, and sweeping at t1 then t2 equals sweeping at t2 |
| `GameLogic.Store.constructor` | src/server/game-logic.ts:5 | the store starts empty and valid |
| `GameLogic.Store.CriarSala` | src/server/game-logic.ts:8-34 | stores the new room under its code, replacing any room there, and returns it |
| `GameLogic.Store.EntrarSala` | src/server/game-logic.ts:36-86 | unknown code: creates the room if `isHost`, else refuses; refuses a room not waiting, full, or with the name; otherwise appends one non-host player; a refusal leaves the map unchanged; the map stays valid |
| `GameLogic.Store.SairSala` | src/server/game-logic.ts:88-120 | unknown room or connection: nothing changes and nobody is removed; otherwise the first matching player is removed and returned; the last leave deletes the room and reports no room; the map stays valid |
| `GameLogic.Store.IniciarJogo` | src/server/game-logic.ts:122-160 | deals exactly when the caller is host, there are at least 3 players and the room is waiting; otherwise refuses and changes nothing |
| `GameLogic.Store.ReiniciarJogo` | src/server/game-logic.ts:162-212 | deals exactly when the caller is host and there are at least 3 players, whatever the status; otherwise refuses and changes nothing |
| `GameLogic.Store.Distribui` | src/server/game-logic.ts:138-158 | draws the location and the spy from the two random values, stores the dealt room and returns it |
| `GameLogic.Store.RevelarCarta` | src/server/game-logic.ts:214-231 | flips the card of the first player with the connection and returns the room and that player; unknown room or connection changes nothing |
| `GameLogic.Store.ObterSala` | src/server/game-logic.ts:233-235 | the room stored under the code, None when there is none; a stored room always has a player |
| `GameLogic.Store.ObterJogadorPorSocket` | src/server/game-logic.ts:237-245 | the first player of the room with the connection id; None exactly when the room or such a player is missing |
| `GameLogic.Store.LimparSalasAntigas` | src/server/game-logic.ts:252-264 | the loop over the rooms deletes exactly the rooms older than 24 hours and leaves the others unchanged |
| `Scenario.Entradas` | src/server/game-logic.ts:36-86 | Ana creates ABC123, Bruno and Carla join, and "ana" is refused as a case variant of Ana |
| `Scenario.Partida` | src/server/game-logic.ts:88-160 | a deal in ABC123 gives exactly one spy; when Ana leaves, Bruno is the new first player and holds the host flag, two players remain and the round goes on |
| `Scenario.DoisJogadores` | src/server/game-logic.ts:88-136 | with two players the host cannot deal; after both leave the room can no longer be found |

## Left out

- The Socket.IO gateway is not part of this model: `src/server/socket-handler.ts`
  (broadcasts, disconnect handling, the hourly timer). The client files
  (`src/app/`, `src/contexts/`, `src/hooks/`) are not part of it either.
- Rooms and players are values. In the source, the stored `Sala` object is
  shared with the caller and changed in place (`push`, `splice`, field
  assignments). Here the changed room is written back into the map instead.
  A caller that later mutates a returned room would change the store; the
  model does not capture that.
- `GameRules.Lower`, the lower-casing that names are compared under, folds
  only the ASCII letters A-Z. JavaScript's `toLowerCase` also folds other
  Unicode letters.
- `GameRules.IndiceAleatorio` computes with exact reals. It does not model
  the rounding of the floating-point product `Math.random() * n`.
- `GameRules.IndiceAleatorioSobrejetivo` shows every index can be drawn,
  not that the draw is uniform. Probability is not modelled.
- `gerarId`, which draws a random base-36 string, is not modelled:
  the id is a parameter. So ids are not known to be distinct, and nothing
  relies on that.
- `console.log` output is left out.
- The status `Finalizada` is in the record type, but no operation sets it.
