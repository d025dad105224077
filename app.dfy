/** The web application's own logic: dispatch of the six colour and edge operations,
    the derived output path, the `/process` request flow, and the in-memory user
    registry behind `/register` and `/login`. OpenCV's `imread`, `imwrite` and its
    colour and edge transforms are function parameters. */
module App {
  import opened Common
  import PosixPath

  /** The operations `process_image` supports. */
  datatype Operation = Rgb | Hsv | YCbCr | Hls | Xyz | Canny

  /** The form value that selects each operation. */
  function Name(op: Operation): string
  {
    match op
    case Rgb => "rgb"
    case Hsv => "hsv"
    case YCbCr => "ycbcr"
    case Hls => "hls"
    case Xyz => "xyz"
    case Canny => "canny"
  }

  /** The `if`/`elif` chain of `process_image` on the operation string. */
  function ParseOperation(s: string): (r: Option<Operation>)
    ensures r.Some? ==> Name(r.value) == s
  {
    if s == "rgb" then Some(Rgb)
    else if s == "hsv" then Some(Hsv)
    else if s == "ycbcr" then Some(YCbCr)
    else if s == "hls" then Some(Hls)
    else if s == "xyz" then Some(Xyz)
    else if s == "canny" then Some(Canny)
    else None
  }

  /** Parsing accepts exactly the six names, each giving back its operation. */
  lemma ParseOperationIff(s: string, op: Operation)
    ensures ParseOperation(s) == Some(op) <==> s == Name(op)
    ensures ParseOperation(s).None? <==> s !in {"rgb", "hsv", "ycbcr", "hls", "xyz", "canny"}
  {
  }

  const UnreadableMessage: string := "Could not read the uploaded image."

  /** `f"{base}_{operation}{ext}"` with `base, ext = os.path.splitext(image_path)`. */
  function OutputPath(imagePath: string, operation: string): string
  {
    var (base, ext) := PosixPath.SplitExt(imagePath);
    base + "_" + operation + ext
  }

  /** No operation name holds a '.' or a '/'. */
  lemma NamePlain(op: Operation)
    ensures '.' !in Name(op) && '/' !in Name(op)
  {
    var n := Name(op);
    assert forall i :: 0 <= i < |n| ==> 'a' <= n[i] <= 'z';
  }

  /** The output path is the input path with `_` and the operation inserted before the
      extension: it keeps the extension, splits into exactly that stem and extension,
      and is longer than (so differs from) the input. */
  lemma OutputPathShape(imagePath: string, op: Operation)
    ensures PosixPath.SplitExt(imagePath).0 + PosixPath.SplitExt(imagePath).1 == imagePath
    ensures OutputPath(imagePath, Name(op)) ==
      PosixPath.SplitExt(imagePath).0 + "_" + Name(op) + PosixPath.SplitExt(imagePath).1
    ensures PosixPath.SplitExt(OutputPath(imagePath, Name(op))) ==
      (PosixPath.SplitExt(imagePath).0 + "_" + Name(op), PosixPath.SplitExt(imagePath).1)
    ensures |OutputPath(imagePath, Name(op))| == |imagePath| + 1 + |Name(op)|
    ensures OutputPath(imagePath, Name(op)) != imagePath
  {
    var (base, ext) := PosixPath.SplitExt(imagePath);
    var name := Name(op);
    NamePlain(op);
    var mid := "_" + name;
    assert '.' !in mid && '/' !in mid;
    PosixPath.SplitExtInsert(imagePath, mid);
    assert base + mid == base + "_" + name;
    assert base + mid + ext == OutputPath(imagePath, name);
  }

  /** `process_image(image_path, operation)`: read the image (`imread` gives `None`
      when it cannot), pick the transform, name the output and write it there.
      `imwrite(path, image)` is `Some(message)` when it raises, for example on a path
      with no extension OpenCV can write; its boolean result is ignored by the caller,
      so `None` stands for both of its normal returns. On success the result is the
      path written and the image written there. */
  function ProcessImage<Image>(imagePath: string, operation: string,
                               imread: string -> Option<Image>,
                               transform: (Operation, Image) -> Image,
                               imwrite: (string, Image) -> Option<string>): Result<(string, Image), string>
  {
    match imread(imagePath)
    case None => Err(UnreadableMessage)
    case Some(img) =>
      match ParseOperation(operation)
      case None => Err("Unsupported operation: " + operation)
      case Some(op) =>
        var processed := if op == Rgb then img else transform(op, img);
        var path := OutputPath(imagePath, operation);
        match imwrite(path, processed)
        case Some(e) => Err(e)
        case None => Ok((path, processed))
  }

  /** An unreadable image fails with the same message whatever the operation. */
  lemma UnreadableFailsFirst<Image>(imagePath: string, operation: string,
                                    imread: string -> Option<Image>,
                                    transform: (Operation, Image) -> Image,
                                    imwrite: (string, Image) -> Option<string>)
    requires imread(imagePath).None?
    ensures ProcessImage(imagePath, operation, imread, transform, imwrite) == Err(UnreadableMessage)
  {
  }

  /** With a readable image, a name outside the six fails with the name in the
      message, before anything is written; for the six names the transformed image (the
      image itself for `rgb`) is written to the derived path, and the call fails
      exactly when that write raises, with the write's message. */
  lemma ProcessImageOutcome<Image>(imagePath: string, operation: string,
                                   imread: string -> Option<Image>,
                                   transform: (Operation, Image) -> Image,
                                   imwrite: (string, Image) -> Option<string>)
    requires imread(imagePath).Some?
    ensures var r := ProcessImage(imagePath, operation, imread, transform, imwrite);
      var img := imread(imagePath).value;
      var path := OutputPath(imagePath, operation);
      (operation !in {"rgb", "hsv", "ycbcr", "hls", "xyz", "canny"} ==>
        r == Err("Unsupported operation: " + operation)) &&
      (operation == "rgb" ==>
        r == (if imwrite(path, img).Some? then Err(imwrite(path, img).value) else Ok((path, img)))) &&
      (forall op :: operation == Name(op) && op != Rgb ==>
        var out := transform(op, img);
        r == (if imwrite(path, out).Some? then Err(imwrite(path, out).value) else Ok((path, out))))
  {
    forall op | operation == Name(op) ensures ParseOperation(operation) == Some(op) {
      ParseOperationIff(operation, op);
    }
  }

  // ---------------------------------------------------------------- `/process`

  const UploadFolder: string := "static/uploads"

  /** The JSON responses of the `/process` route. */
  datatype Response = NoImage | ProcessingFailed(error: string) | Processed(path: string)

  /** `request.form.get('operation', 'hsv')`. */
  function OperationField(form: map<string, string>): string
  {
    if "operation" in form then form["operation"] else "hsv"
  }

  /** The `/process` route: a missing `image` part is answered with 400; otherwise the
      upload is saved under the upload folder and processed, any error being answered
      with 500 and its message. */
  function ProcessRequest<Image>(image: Option<string>, form: map<string, string>,
                                 imread: string -> Option<Image>,
                                 transform: (Operation, Image) -> Image,
                                 imwrite: (string, Image) -> Option<string>): (r: Response)
    ensures r == NoImage <==> image.None?
  {
    match image
    case None => NoImage
    case Some(filename) =>
      var filepath := PosixPath.Join(UploadFolder, filename);
      match ProcessImage(filepath, OperationField(form), imread, transform, imwrite)
      case Err(e) => ProcessingFailed(e)
      case Ok((path, _)) => Processed(path)
  }

  /** A request whose form names no operation is processed as `hsv`. */
  lemma DefaultOperationIsHsv<Image>(filename: string, form: map<string, string>,
                                     imread: string -> Option<Image>,
                                     transform: (Operation, Image) -> Image,
                                     imwrite: (string, Image) -> Option<string>)
    requires "operation" !in form
    ensures var filepath := PosixPath.Join(UploadFolder, filename);
      var out := OutputPath(filepath, "hsv");
      ProcessRequest(Some(filename), form, imread, transform, imwrite) ==
        if imread(filepath).None? then ProcessingFailed(UnreadableMessage)
        else if imwrite(out, transform(Hsv, imread(filepath).value)).Some? then
          ProcessingFailed(imwrite(out, transform(Hsv, imread(filepath).value)).value)
        else Processed(out)
  {
  }

  // ---------------------------------------------------------------- users

  /** Whether `/login` accepts the credentials. */
  predicate LoginAccepted(users: map<string, string>, username: string, password: string)
  {
    username in users && users[username] == password
  }

  /** The registry after `/register` and whether it succeeded: an existing name is
      refused and nothing changes; a new name is added with its password. */
  function RegisterNext(users: map<string, string>, username: string, password: string): (r: (map<string, string>, bool))
  {
    if username in users then (users, false) else (users[username := password], true)
  }

  /** Registration succeeds exactly for a new name, then adds exactly that one
      mapping, and never alters or removes an existing one. */
  lemma RegisterNextSpec(users: map<string, string>, username: string, password: string)
    ensures var (next, ok) := RegisterNext(users, username, password);
      (ok <==> username !in users) &&
      (!ok ==> next == users) &&
      (ok ==> next.Keys == users.Keys + {username} && next[username] == password) &&
      (forall u :: u in users ==> u in next && next[u] == users[u])
  {
  }

  /** After registering a new name, logging in with the same password succeeds and
      with any other password fails; every other user's logins are unaffected. */
  lemma RegisterThenLogin(users: map<string, string>, username: string, password: string)
    requires username !in users
    ensures var next := RegisterNext(users, username, password).0;
      (forall p :: LoginAccepted(next, username, p) <==> p == password) &&
      (forall u, p :: u != username ==> (LoginAccepted(next, u, p) <==> LoginAccepted(users, u, p)))
  {
  }

  /** A second registration of a name cannot change its password: the first one wins. */
  lemma FirstPasswordWins(users: map<string, string>, username: string, first: string, second: string)
    requires username !in users
    ensures var once := RegisterNext(users, username, first).0;
      var twice := RegisterNext(once, username, second);
      !twice.1 && twice.0 == once && LoginAccepted(twice.0, username, first)
  {
  }

  /** The module-level `users` dictionary. */
  class UserRegistry {
    var users: map<string, string>

    constructor ()
      ensures users == map[]
    {
      users := map[];
    }

    /** `register`: `users[username] = password` unless the name is taken. */
    method Register(username: string, password: string) returns (ok: bool)
      modifies this
      ensures (users, ok) == RegisterNext(old(users), username, password)
    {
      if username in users {
        return false;
      }
      users := users[username := password];
      return true;
    }

    /** `login`: only reads the registry. */
    method Login(username: string, password: string) returns (ok: bool)
      ensures ok == LoginAccepted(users, username, password)
    {
      ok := username in users && users[username] == password;
    }
  }

  /** A client session: register a fresh name, fail to register it again with another
      password, then log in with the first password only. */
  method RegistrationSession(registry: UserRegistry, username: string, first: string, second: string)
    returns (registered: bool, again: bool, loginFirst: bool, loginSecond: bool)
    requires username !in registry.users
    modifies registry
    ensures registered && !again && loginFirst
    ensures loginSecond <==> first == second
    ensures registry.users == old(registry.users)[username := first]
  {
    registered := registry.Register(username, first);
    again := registry.Register(username, second);
    loginFirst := registry.Login(username, first);
    loginSecond := registry.Login(username, second);
  }
}
